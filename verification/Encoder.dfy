/** The sender's state: packetizing, first transmissions, acknowledgements and retransmissions. */
module Encoding {
  import opened Wrappers
  import opened Wire
  import opened Protocol
  import opened Packetizer
  import opened Rtt

  const MAX_NUM_RTX: nat := 3
  const MAX_UNACKED_US: nat := 1_000_000

  /** unacked lists the entries of the ordered map in ascending order of their numbers. */
  datatype SenderState = SenderState(
    frameId: uint32, sendBuf: seq<Datagram>, unacked: seq<Datagram>, rtt: RttState)

  ghost predicate Ordered(ds: seq<Datagram>) {
    forall i, j :: 0 <= i < j < |ds| ==> Less(ds[i].Num(), ds[j].Num())
  }

  /** Subtraction of unsigned 64-bit timestamps. */
  function Since(now: uint64, ts: uint64): uint64 {
    (now - ts) % 0x1_0000_0000_0000_0000
  }

  // ---------- the ordered map of unacknowledged datagrams ----------

  /** How many entries come before number n. */
  function Place(ds: seq<Datagram>, n: SeqNum): (p: nat)
    ensures p <= |ds|
    ensures forall i :: 0 <= i < p ==> Less(ds[i].Num(), n)
    ensures p < |ds| ==> !Less(ds[p].Num(), n)
  {
    if ds == [] || !Less(ds[0].Num(), n) then 0 else 1 + Place(ds[1..], n)
  }

  predicate Holds(ds: seq<Datagram>, n: SeqNum) {
    var p := Place(ds, n);
    p < |ds| && ds[p].Num() == n
  }

  lemma {:induction false} PlaceIs(ds: seq<Datagram>, n: SeqNum, i: nat)
    requires Ordered(ds) && i < |ds| && ds[i].Num() == n
    ensures Place(ds, n) == i
  {
    if i > 0 {
      PlaceIs(ds[1..], n, i - 1);
    }
  }

  /** In an ordered list the lookup finds an entry just when there is one. */
  lemma HoldsMeansMember(ds: seq<Datagram>, n: SeqNum)
    requires Ordered(ds)
    ensures Holds(ds, n) <==> n in Nums(ds)
  {
    var p := Place(ds, n);
    if Holds(ds, n) {
      assert ds[p] in ds;
    }
    if n in Nums(ds) {
      var d :| d in ds && d.Num() == n;
      var i :| 0 <= i < |ds| && ds[i] == d;
      PlaceIs(ds, n, i);
    }
  }

  /** Inserting at its place: refused when the number is already there; else the entry joins, stamped
      with its send time, and everything that was there stays, in order. */
  function Stored(ds: seq<Datagram>, d: Datagram): (r: Result<seq<Datagram>>)
    ensures r.Throw? <==> Holds(ds, d.Num())
    ensures r.Ok? ==> multiset(r.value) == multiset(ds) + multiset{d.(lastSendTs := d.sendTs)}
    ensures r.Ok? ==> Nums(r.value) == Nums(ds) + {d.Num()}
    ensures r.Ok? && Ordered(ds) ==> Ordered(r.value)
  {
    if Holds(ds, d.Num()) then Throw(AlreadyUnacked)
    else
      var p := Place(ds, d.Num());
      StoredEntries(ds, d, p);
      StoredOrdered(ds, d);
      Ok(ds[..p] + [d.(lastSendTs := d.sendTs)] + ds[p..])
  }

  lemma StoredEntries(ds: seq<Datagram>, d: Datagram, p: nat)
    requires p <= |ds|
    ensures var e := d.(lastSendTs := d.sendTs);
            && multiset(ds[..p] + [e] + ds[p..]) == multiset(ds) + multiset{e}
            && Nums(ds[..p] + [e] + ds[p..]) == Nums(ds) + {d.Num()}
  {
    var e := d.(lastSendTs := d.sendTs);
    assert ds == ds[..p] + ds[p..];
    NumsConcat(ds[..p], ds[p..]);
    NumsConcat(ds[..p] + [e], ds[p..]);
    NumsConcat(ds[..p], [e]);
    NumsOne(e);
  }

  lemma StoredOrdered(ds: seq<Datagram>, d: Datagram)
    requires !Holds(ds, d.Num())
    ensures var p := Place(ds, d.Num());
            Ordered(ds) ==> Ordered(ds[..p] + [d.(lastSendTs := d.sendTs)] + ds[p..])
  {
    var p := Place(ds, d.Num());
    if Ordered(ds) && p < |ds| {
      assert Less(d.Num(), ds[p].Num());
    }
  }

  // ---------- encoding a frame ----------

  /** Give up when the first unacknowledged datagram was first sent too long ago. */
  predicate GivesUp(s: SenderState, now: uint64) {
    s.unacked != [] && Since(now, s.unacked[0].sendTs) > MAX_UNACKED_US
  }

  function Prepared(s: SenderState, now: uint64): SenderState {
    if GivesUp(s, now) then s.(sendBuf := [], unacked := []) else s
  }

  function TypeOf(isKey: bool): uint8 {
    if isKey then KEY else NONKEY
  }

  function Compressed(s: SenderState, now: uint64, bytes: seq<byte>, isKey: bool, limit: nat): Result<SenderState> {
    var t := Prepared(s, now);
    var ds := Packets(t.frameId, TypeOf(isKey), bytes, limit);
    if ds.Throw? then Throw(ds.error)
    else Ok(t.(frameId := (t.frameId + 1) % 0x1_0000_0000, sendBuf := t.sendBuf + ds.value))
  }

  lemma AppendNext(front: seq<Datagram>, ds: seq<Datagram>, k: nat)
    requires k < |ds|
    ensures front + ds[..k] + [ds[k]] == front + ds[..k + 1]
  {
  }

  // ---------- sending the datagram at the front ----------

  /** A first transmission moves to unacked, a retransmission is just popped; a blocked send changes
      nothing but the timestamp. */
  function Sent(s: SenderState, now: uint64, sent: bool): (r: Result<SenderState>)
    requires s.sendBuf != []
  {
    var d := s.sendBuf[0].(sendTs := now);
    if !sent then Ok(s.(sendBuf := [d.(sendTs := 0)] + s.sendBuf[1..]))
    else if d.numRtx == 0 then
      var u := Stored(s.unacked, d);
      if u.Throw? then Throw(u.error)
      else Ok(s.(sendBuf := s.sendBuf[1..], unacked := u.value))
    else Ok(s.(sendBuf := s.sendBuf[1..]))
  }

  // ---------- handling an acknowledgement ----------

  /** Retransmit unless the cap is reached, at once the first time and then after more than one RTT. */
  predicate Eligible(d: Datagram, now: uint64, ewma: real) {
    d.numRtx < MAX_NUM_RTX && (d.numRtx == 0 || Since(now, d.lastSendTs) as real > ewma)
  }

  function Again(d: Datagram, now: uint64): Datagram {
    d.(numRtx := d.numRtx + 1, lastSendTs := now)
  }

  function Mark(d: Datagram, now: uint64, ewma: real): Datagram {
    if Eligible(d, now, ewma) then Again(d, now) else d
  }

  function Marked(ds: seq<Datagram>, now: uint64, ewma: real): (r: seq<Datagram>)
    ensures |r| == |ds|
    ensures forall i :: 0 <= i < |ds| ==> r[i] == Mark(ds[i], now, ewma)
  {
    seq(|ds|, i requires 0 <= i < |ds| => Mark(ds[i], now, ewma))
  }

  function Resent(ds: seq<Datagram>, now: uint64, ewma: real): seq<Datagram> {
    if ds == [] then []
    else (if Eligible(ds[0], now, ewma) then [Again(ds[0], now)] else []) + Resent(ds[1..], now, ewma)
  }

  function Sample(now: uint64, sendTs: uint64): uint32 {
    Since(now, sendTs) % 0x1_0000_0000
  }

  function Acked(s: SenderState, ack: AckMsg, now: uint64): SenderState {
    var rtt := WithSample(s.rtt, Sample(now, ack.sendTs));
    var n := SeqNum(ack.frameId, ack.fragId);
    var p := Place(s.unacked, n);
    if !Holds(s.unacked, n) then s.(rtt := rtt)
    else
      var before := s.unacked[..p];
      s.(rtt := rtt,
         sendBuf := Resent(before, now, rtt.ewmaUs.value) + s.sendBuf,
         unacked := Marked(before, now, rtt.ewmaUs.value) + s.unacked[p + 1..])
  }

  lemma ResentStep(ds: seq<Datagram>, i: nat, to: nat, now: uint64, ewma: real, queue: seq<Datagram>)
    requires i < to <= |ds|
    ensures var later := Resent(ds[i + 1..to], now, ewma) + queue;
            Resent(ds[i..to], now, ewma) + queue ==
            if Eligible(ds[i], now, ewma) then [Again(ds[i], now)] + later else later
  {
    assert ds[i..to][1..] == ds[i + 1..to];
  }

  /** One step of the backward walk over the entries, of which those from i + 1 on are marked. */
  lemma MarkStep(u: seq<Datagram>, i: nat, to: nat, now: uint64, ewma: real)
    requires i < to <= |u|
    ensures var es := u[..i + 1] + Marked(u[i + 1..to], now, ewma) + u[to..];
            && i < |es| && es[i] == u[i]
            && es[i := Mark(u[i], now, ewma)] == u[..i] + Marked(u[i..to], now, ewma) + u[to..]
            && (!Eligible(u[i], now, ewma) ==> es == u[..i] + Marked(u[i..to], now, ewma) + u[to..])
  {
    var es := u[..i + 1] + Marked(u[i + 1..to], now, ewma) + u[to..];
    var fs := u[..i] + Marked(u[i..to], now, ewma) + u[to..];
    forall k | 0 <= k < |u|
      ensures fs[k] == es[i := Mark(u[i], now, ewma)][k]
    {
      if i < k < to {
        assert u[i..to][k - i] == u[k] == u[i + 1..to][k - i - 1];
      }
    }
    assert es[i := es[i]] == es;
  }

  lemma WalkEnds(u: seq<Datagram>, to: nat, now: uint64, ewma: real)
    requires to <= |u|
    ensures u[..to] + Marked(u[to..to], now, ewma) + u[to..] == u && Resent(u[to..to], now, ewma) == []
    ensures u[..0] + Marked(u[0..to], now, ewma) + u[to..] == Marked(u[..to], now, ewma) + u[to..]
    ensures u[0..to] == u[..to]
  {
  }

  // ---------- what handling an acknowledgement means ----------

  lemma {:induction false} ResentComes(ds: seq<Datagram>, now: uint64, ewma: real, e: Datagram)
    requires e in Resent(ds, now, ewma)
    ensures exists i :: 0 <= i < |ds| && Eligible(ds[i], now, ewma) && e == Again(ds[i], now)
  {
    if Eligible(ds[0], now, ewma) && e == Again(ds[0], now) {
    } else {
      ResentComes(ds[1..], now, ewma, e);
      var i :| 0 <= i < |ds[1..]| && Eligible(ds[1..][i], now, ewma) && e == Again(ds[1..][i], now);
      assert ds[i + 1] == ds[1..][i];
    }
  }

  lemma {:induction false} ResentKeeps(ds: seq<Datagram>, now: uint64, ewma: real, i: nat)
    requires i < |ds| && Eligible(ds[i], now, ewma)
    ensures Again(ds[i], now) in Resent(ds, now, ewma)
  {
    if i > 0 {
      ResentKeeps(ds[1..], now, ewma, i - 1);
    }
  }

  lemma {:induction false} ResentOrdered(ds: seq<Datagram>, now: uint64, ewma: real)
    requires Ordered(ds)
    ensures Ordered(Resent(ds, now, ewma))
  {
    if ds != [] {
      var r := Resent(ds[1..], now, ewma);
      ResentOrdered(ds[1..], now, ewma);
      forall j | 0 <= j < |r|
        ensures Less(ds[0].Num(), r[j].Num())
      {
        ResentComes(ds[1..], now, ewma, r[j]);
      }
    }
  }

  /** The retransmissions are exactly the eligible datagrams, marked, in ascending order. */
  lemma ResentExactly(ds: seq<Datagram>, now: uint64, ewma: real)
    requires Ordered(ds)
    ensures Ordered(Resent(ds, now, ewma))
    ensures forall e :: e in Resent(ds, now, ewma) <==>
              exists i :: 0 <= i < |ds| && Eligible(ds[i], now, ewma) && e == Again(ds[i], now)
  {
    ResentOrdered(ds, now, ewma);
    forall e
      ensures e in Resent(ds, now, ewma) <==>
              exists i :: 0 <= i < |ds| && Eligible(ds[i], now, ewma) && e == Again(ds[i], now)
    {
      if e in Resent(ds, now, ewma) {
        ResentComes(ds, now, ewma, e);
      }
      if i :| 0 <= i < |ds| && Eligible(ds[i], now, ewma) && e == Again(ds[i], now) {
        ResentKeeps(ds, now, ewma, i);
      }
    }
  }

  /** A number is retransmitted just when its own entry is eligible. */
  lemma ResentNums(ds: seq<Datagram>, now: uint64, gate: real, i: nat)
    requires Ordered(ds) && i < |ds|
    ensures ds[i].Num() in Nums(Resent(ds, now, gate)) <==> Eligible(ds[i], now, gate)
  {
    var r := Resent(ds, now, gate);
    if Eligible(ds[i], now, gate) {
      ResentKeeps(ds, now, gate, i);
      assert Again(ds[i], now).Num() in Nums(r);
    }
    if ds[i].Num() in Nums(r) {
      var k := NumsMember(r, ds[i].Num());
      ResentComes(ds, now, gate, r[k]);
      var j :| 0 <= j < |ds| && Eligible(ds[j], now, gate) && r[k] == Again(ds[j], now);
      PlaceIs(ds, ds[i].Num(), i);
      PlaceIs(ds, ds[i].Num(), j);
    }
  }

  lemma ResentFrom(ds: seq<Datagram>, now: uint64, gate: real, n: SeqNum) returns (i: nat)
    requires n in Nums(Resent(ds, now, gate))
    ensures i < |ds| && ds[i].Num() == n && Eligible(ds[i], now, gate)
  {
    var r := Resent(ds, now, gate);
    var k := NumsMember(r, n);
    ResentComes(ds, now, gate, r[k]);
    i :| 0 <= i < |ds| && Eligible(ds[i], now, gate) && r[k] == Again(ds[i], now);
  }

  lemma SameNums(ds: seq<Datagram>, es: seq<Datagram>)
    requires |ds| == |es| && forall i :: 0 <= i < |ds| ==> ds[i].Num() == es[i].Num()
    ensures Nums(ds) <= Nums(es)
  {
    forall n | n in Nums(ds)
      ensures n in Nums(es)
    {
      var d :| d in ds && d.Num() == n;
      var i :| 0 <= i < |ds| && ds[i] == d;
      assert es[i] in es;
    }
  }

  lemma MarkedKeepsNums(ds: seq<Datagram>, now: uint64, ewma: real)
    ensures Nums(Marked(ds, now, ewma)) == Nums(ds)
    ensures Ordered(ds) ==> Ordered(Marked(ds, now, ewma))
  {
    SameNums(ds, Marked(ds, now, ewma));
    SameNums(Marked(ds, now, ewma), ds);
  }

  lemma OrderedSplit(ds: seq<Datagram>, p: nat)
    requires Ordered(ds) && p < |ds|
    ensures Nums(ds) == Nums(ds[..p]) + {ds[p].Num()} + Nums(ds[p + 1..])
    ensures ds[p].Num() !in Nums(ds[..p]) && ds[p].Num() !in Nums(ds[p + 1..])
  {
    NumsConcat(ds[..p], [ds[p]]);
    NumsConcat(ds[..p] + [ds[p]], ds[p + 1..]);
    NumsOne(ds[p]);
    assert ds == ds[..p] + [ds[p]] + ds[p + 1..];
  }

  /** Marking what comes before an entry and dropping the entry keeps the order and all other numbers. */
  lemma ErasedNums(ds: seq<Datagram>, p: nat, now: uint64, ewma: real)
    requires Ordered(ds) && p < |ds|
    ensures var es := Marked(ds[..p], now, ewma) + ds[p + 1..];
            Ordered(es) && Nums(es) == Nums(ds) - {ds[p].Num()}
  {
    MarkedKeepsNums(ds[..p], now, ewma);
    OrderedSplit(ds, p);
    NumsConcat(Marked(ds[..p], now, ewma), ds[p + 1..]);
  }

  /** Acknowledging removes the acknowledged number from unacked and no other, keeping the order. */
  lemma AckedNums(s: SenderState, ack: AckMsg, now: uint64)
    requires Ordered(s.unacked)
    ensures Ordered(Acked(s, ack, now).unacked)
    ensures Nums(Acked(s, ack, now).unacked) == Nums(s.unacked) - {SeqNum(ack.frameId, ack.fragId)}
  {
    var n := SeqNum(ack.frameId, ack.fragId);
    HoldsMeansMember(s.unacked, n);
    if Holds(s.unacked, n) {
      ErasedNums(s.unacked, Place(s.unacked, n), now, Acked(s, ack, now).rtt.ewmaUs.value);
    }
  }

  /** The simple form of acknowledging a held number: the retransmissions of everything below it go
      before the old queue, its own entry leaves, entries above it are untouched. An unknown number
      only feeds the RTT estimate. */
  lemma AckedSimpleForm(s: SenderState, ack: AckMsg, now: uint64)
    requires Ordered(s.unacked)
    ensures var n := SeqNum(ack.frameId, ack.fragId);
            var t := Acked(s, ack, now);
            && t.rtt.ewmaUs.Some? && t.frameId == s.frameId
            && (n !in Nums(s.unacked) ==> t == s.(rtt := t.rtt))
            && (forall p :: 0 <= p < |s.unacked| && s.unacked[p].Num() == n ==>
                  var ewma := t.rtt.ewmaUs.value;
                  && t.sendBuf == Resent(s.unacked[..p], now, ewma) + s.sendBuf
                  && t.unacked[..p] == Marked(s.unacked[..p], now, ewma)
                  && t.unacked[p..] == s.unacked[p + 1..])
  {
    var n := SeqNum(ack.frameId, ack.fragId);
    HoldsMeansMember(s.unacked, n);
    forall p | 0 <= p < |s.unacked| && s.unacked[p].Num() == n
      ensures p == Place(s.unacked, n) && Holds(s.unacked, n)
    {
      PlaceIs(s.unacked, n, p);
    }
  }

  /** An acknowledgement that comes again changes nothing but the RTT estimate. */
  lemma RepeatedAck(s: SenderState, ack: AckMsg, now: uint64, ack': AckMsg, later: uint64)
    requires Ordered(s.unacked)
    requires ack'.frameId == ack.frameId && ack'.fragId == ack.fragId
    ensures var t := Acked(s, ack, now);
            Acked(t, ack', later) == t.(rtt := WithSample(t.rtt, Sample(later, ack'.sendTs)))
  {
    AckedNums(s, ack, now);
    HoldsMeansMember(Acked(s, ack, now).unacked, SeqNum(ack.frameId, ack.fragId));
  }

  lemma EraseAfter(front: seq<Datagram>, ds: seq<Datagram>, p: nat)
    requires p < |ds| && |front| == p
    ensures var es := front + ds[p..];
            es[..p] + es[p + 1..] == front + ds[p + 1..]
  {
  }

  lemma UnknownIsAcked(s: SenderState, ack: AckMsg, now: uint64)
    requires !Holds(s.unacked, SeqNum(ack.frameId, ack.fragId))
    ensures Acked(s, ack, now) == s.(rtt := WithSample(s.rtt, Sample(now, ack.sendTs)))
  {
  }

  /** Erasing the acknowledged entry from the marked entries completes the acknowledgement. */
  lemma ErasedIsAcked(s: SenderState, ack: AckMsg, now: uint64, p: nat, es: seq<Datagram>)
    requires Ordered(s.unacked) && Holds(s.unacked, SeqNum(ack.frameId, ack.fragId))
    requires p == Place(s.unacked, SeqNum(ack.frameId, ack.fragId))
    requires es == Marked(s.unacked[..p], now, Acked(s, ack, now).rtt.ewmaUs.value) + s.unacked[p..]
    ensures p < |es| && Ordered(es[..p] + es[p + 1..])
    ensures var rtt := Acked(s, ack, now).rtt;
            Acked(s, ack, now) ==
            SenderState(s.frameId, Resent(s.unacked[..p], now, rtt.ewmaUs.value) + s.sendBuf,
                        es[..p] + es[p + 1..], rtt)
  {
    EraseAfter(Marked(s.unacked[..p], now, Acked(s, ack, now).rtt.ewmaUs.value), s.unacked, p);
    AckedNums(s, ack, now);
  }

  // ---------- each operation in terms of its inputs alone ----------

  lemma {:induction false} OccursOnce(ds: seq<Datagram>, n: SeqNum)
    requires Ordered(ds)
    ensures Occurrences(ds, n) == if n in Nums(ds) then 1 else 0
  {
    if ds != [] {
      var front, last := ds[..|ds| - 1], ds[|ds| - 1];
      OccursOnce(front, n);
      assert ds == front + [last];
      NumsConcat(front, [last]);
      NumsOne(last);
      forall m | m in Nums(front)
        ensures m != last.Num()
      {
        var i := NumsMember(front, m);
        assert Less(ds[i].Num(), ds[|ds| - 1].Num());
      }
    }
  }

  /** Sending the front of the queue: a socket that would block leaves it there, with its timestamp
      cleared; a retransmission is taken off; a first transmission is taken off and tracked with the
      time of sending, unless its number is tracked already. */
  lemma SentExactly(s: SenderState, now: uint64, sent: bool)
    requires s.sendBuf != [] && Ordered(s.unacked)
    ensures var d, rest := s.sendBuf[0], s.sendBuf[1..];
            && (!sent ==> Sent(s, now, sent) == Ok(s.(sendBuf := [d.(sendTs := 0)] + rest)))
            && (sent && d.numRtx > 0 ==> Sent(s, now, sent) == Ok(s.(sendBuf := rest)))
            && (sent && d.numRtx == 0 && d.Num() in Nums(s.unacked) ==> Sent(s, now, sent) == Throw(AlreadyUnacked))
            && (sent && d.numRtx == 0 && d.Num() !in Nums(s.unacked) ==>
                  && Sent(s, now, sent).Ok?
                  && var t := Sent(s, now, sent).value;
                     && t == s.(sendBuf := rest, unacked := t.unacked) && Ordered(t.unacked)
                     && multiset(t.unacked) == multiset(s.unacked) + multiset{d.(sendTs := now, lastSendTs := now)})
  {
    HoldsMeansMember(s.unacked, s.sendBuf[0].Num());
  }

  /** Compressing a frame: when the first tracked datagram was sent more than a second ago, everything
      queued and tracked is dropped; the new frame's datagrams go to the back, as type 1 or 2. */
  lemma CompressedExactly(s: SenderState, now: uint64, bytes: seq<byte>, isKey: bool, limit: nat)
    ensures var late := s.unacked != [] && (now - s.unacked[0].sendTs) % 0x1_0000_0000_0000_0000 > 1_000_000;
            var ds := Packets(s.frameId, if isKey then 1 else 2, bytes, limit);
            Compressed(s, now, bytes, isKey, limit) ==
            if ds.Throw? then Throw(PrecisionLost)
            else Ok(SenderState((s.frameId + 1) % 0x1_0000_0000, (if late then [] else s.sendBuf) + ds.value,
                                if late then [] else s.unacked, s.rtt))
  {
  }

  lemma AckedShape(s: SenderState, ack: AckMsg, now: uint64, p: nat)
    requires Ordered(s.unacked) && p < |s.unacked| && s.unacked[p].Num() == SeqNum(ack.frameId, ack.fragId)
    ensures var t := Acked(s, ack, now);
            var below := s.unacked[..p];
            && t.rtt.ewmaUs.Some?
            && t.sendBuf == Resent(below, now, t.rtt.ewmaUs.value) + s.sendBuf
            && t.unacked == Marked(below, now, t.rtt.ewmaUs.value) + s.unacked[p + 1..]
            && t.frameId == s.frameId && t.rtt == WithSample(s.rtt, Sample(now, ack.sendTs))
  {
    PlaceIs(s.unacked, s.unacked[p].Num(), p);
  }

  lemma ResentEntry(ds: seq<Datagram>, now: uint64, ewma: real, i: nat)
    requires Ordered(ds) && i < |ds|
    ensures var d := ds[i];
            var due := d.numRtx < 3 &&
                       (d.numRtx == 0 || ((now - d.lastSendTs) % 0x1_0000_0000_0000_0000) as real > ewma);
            var again := d.(numRtx := d.numRtx + 1, lastSendTs := now);
            && Occurrences(Resent(ds, now, ewma), d.Num()) == (if due then 1 else 0)
            && Marked(ds, now, ewma)[i] == (if due then again else d)
            && (due ==> again in Resent(ds, now, ewma))
  {
    ResentNums(ds, now, ewma, i);
    ResentOrdered(ds, now, ewma);
    OccursOnce(Resent(ds, now, ewma), ds[i].Num());
    if Eligible(ds[i], now, ewma) {
      ResentKeeps(ds, now, ewma, i);
    }
  }

  /** What retransmitting means for the entries ds below an acknowledged one, which become es, and for
      the datagrams added at the front of the queue. An entry retransmitted fewer than three times, and
      never or more than the RTT estimate ago, gains exactly one copy, counted and stamped like the
      entry; all other entries stay, and no other number gains a copy. */
  ghost predicate RetransmitsDue(ds: seq<Datagram>, es: seq<Datagram>, added: seq<Datagram>, now: uint64, ewma: real) {
    && |es| == |ds| && Ordered(added)
    && (forall i :: 0 <= i < |ds| ==>
          var d := ds[i];
          var due := d.numRtx < 3 &&
                     (d.numRtx == 0 || ((now - d.lastSendTs) % 0x1_0000_0000_0000_0000) as real > ewma);
          var again := d.(numRtx := d.numRtx + 1, lastSendTs := now);
          && Occurrences(added, d.Num()) == (if due then 1 else 0)
          && es[i] == (if due then again else d)
          && (due ==> again in added))
    && (forall n :: n !in Nums(ds) ==> Occurrences(added, n) == 0)
  }

  lemma ResentEntries(ds: seq<Datagram>, now: uint64, ewma: real)
    requires Ordered(ds)
    ensures RetransmitsDue(ds, Marked(ds, now, ewma), Resent(ds, now, ewma), now, ewma)
  {
    ResentOrdered(ds, now, ewma);
    forall i | 0 <= i < |ds| {
      ResentEntry(ds, now, ewma, i);
    }
    forall n | n !in Nums(ds)
      ensures Occurrences(Resent(ds, now, ewma), n) == 0
    {
      OccursOnce(Resent(ds, now, ewma), n);
      if n in Nums(Resent(ds, now, ewma)) {
        var i := ResentFrom(ds, now, ewma, n);
        NumsAt(ds, i);
      }
    }
  }

  /** An RTT sample, truncated as the program does, enters the estimate before anything is decided. */
  lemma AckedRtt(s: SenderState, ack: AckMsg, now: uint64)
    ensures var x := (now - ack.sendTs) % 0x1_0000_0000_0000_0000 % 0x1_0000_0000;
            Acked(s, ack, now).rtt ==
            RttState(Some(if s.rtt.minUs.Some? && s.rtt.minUs.value < x then s.rtt.minUs.value else x),
                     Some(if s.rtt.ewmaUs.None? then x as real else 0.2 * (x as real) + 0.8 * s.rtt.ewmaUs.value))
  {
    WithSampleExactly(s.rtt, Sample(now, ack.sendTs));
  }

  /** The acknowledgement of tracked entry p: everything due below it is retransmitted ahead of the old
      queue, the entry leaves, and all entries above it stay as they were. */
  lemma AckedExactly(s: SenderState, ack: AckMsg, now: uint64, p: nat)
    requires Ordered(s.unacked) && p < |s.unacked| && s.unacked[p].Num() == SeqNum(ack.frameId, ack.fragId)
    ensures var t := Acked(s, ack, now);
            && t.rtt.ewmaUs.Some? && t.frameId == s.frameId
            && |t.unacked| + 1 == |s.unacked| && t.unacked[p..] == s.unacked[p + 1..]
            && |t.sendBuf| >= |s.sendBuf|
            && var k := |t.sendBuf| - |s.sendBuf|;
               && t.sendBuf[k..] == s.sendBuf
               && RetransmitsDue(s.unacked[..p], t.unacked[..p], t.sendBuf[..k], now, t.rtt.ewmaUs.value)
  {
    var t := Acked(s, ack, now);
    var ewma := t.rtt.ewmaUs.value;
    AckedShape(s, ack, now, p);
    ResentEntries(s.unacked[..p], now, ewma);
    assert t.sendBuf[..|t.sendBuf| - |s.sendBuf|] == Resent(s.unacked[..p], now, ewma);
    assert t.unacked[..p] == Marked(s.unacked[..p], now, ewma);
  }

  // ---------- the encoder object ----------

  /** What the codec hands back for one image. */
  datatype CodecOutput = CodecOutput(bytes: seq<byte>, isKey: bool)

  class Encoder {
    var frameId: uint32
    var sendBuf: seq<Datagram>
    var unacked: seq<Datagram>
    var minRttUs: Option<uint32>
    var ewmaRttUs: Option<real>

    ghost function State(): SenderState
      reads this
    {
      SenderState(frameId, sendBuf, unacked, RttState(minRttUs, ewmaRttUs))
    }

    ghost predicate Valid()
      reads this
    {
      Ordered(unacked)
    }

    constructor ()
      ensures Valid() && State() == SenderState(0, [], [], NO_RTT)
    {
      frameId := 0;
      sendBuf, unacked := [], [];
      minRttUs, ewmaRttUs := None, None;
    }

    /** Looks at the first unacknowledged entry only. */
    method EncodeFrame(now: uint64, codec: bool -> CodecOutput) returns (output: CodecOutput)
      requires Valid()
      modifies `sendBuf, `unacked
      ensures Valid() && State() == Prepared(old(State()), now)
      ensures output == codec(GivesUp(old(State()), now))
    {
      var forceKey := false;
      if unacked != [] {
        var usSinceFirstSend := Since(now, unacked[0].sendTs);
        if usSinceFirstSend > MAX_UNACKED_US {
          forceKey := true;
          sendBuf := [];
          unacked := [];
        }
      }
      output := codec(forceKey);
    }

    method PacketizeEncodedFrame(output: CodecOutput, limit: nat) returns (r: Result<nat>)
      modifies `sendBuf
      ensures var ds := Packets(frameId, TypeOf(output.isKey), output.bytes, limit);
              && (r.Throw? ==> ds == Throw(r.error) && sendBuf == old(sendBuf))
              && (r.Ok? ==> ds.Ok? && sendBuf == old(sendBuf) + ds.value && r.value == |output.bytes|)
    {
      var frameType := TypeOf(output.isKey);
      var fragCnt := |output.bytes| / (limit + 1) + 1;
      if fragCnt > MAX_UINT16 {
        return Throw(PrecisionLost);
      }
      ghost var ds := Packets(frameId, frameType, output.bytes, limit).value;
      var bufPtr := 0;
      for fragId := 0 to fragCnt
        invariant bufPtr == Cut(|output.bytes|, limit, fragId)
        invariant sendBuf == old(sendBuf) + ds[..fragId]
      {
        PacketStep(frameId, frameType, output.bytes, limit, fragId);
        var payloadSize := if fragId < fragCnt - 1 then limit else |output.bytes| - bufPtr;
        var payload := output.bytes[bufPtr..bufPtr + payloadSize];
        var datagram := Datagram(frameId, frameType, fragId, fragCnt, 0, payload, 0, 0);
        assert datagram == ds[fragId];
        AppendNext(old(sendBuf), ds, fragId);
        sendBuf := sendBuf + [datagram];
        bufPtr := bufPtr + payloadSize;
      }
      assert ds[..fragCnt] == ds;
      r := Ok(|output.bytes|);
    }

    method CompressFrame(now: uint64, codec: bool -> CodecOutput, limit: nat) returns (r: Result<()>)
      requires Valid()
      modifies `frameId, `sendBuf, `unacked
      ensures var output := codec(GivesUp(old(State()), now));
              var t := Compressed(old(State()), now, output.bytes, output.isKey, limit);
              && (r.Throw? ==> t == Throw(r.error))
              && (r.Ok? ==> Valid() && t == Ok(State()))
    {
      var output := EncodeFrame(now, codec);
      var frameSize :- PacketizeEncodedFrame(output, limit);
      frameId := (frameId + 1) % 0x1_0000_0000;
      r := Ok(());
    }

    method AddUnacked(d: Datagram) returns (r: Result<()>)
      requires Valid()
      modifies `unacked
      ensures Valid()
      ensures r.Throw? ==> Stored(old(unacked), d) == Throw(r.error) && unacked == old(unacked)
      ensures r.Throw? <==> d.Num() in Nums(old(unacked))
      ensures r.Ok? ==> Stored(old(unacked), d) == Ok(unacked) && Nums(unacked) == Nums(old(unacked)) + {d.Num()} &&
                        multiset(unacked) == multiset(old(unacked)) + multiset{d.(lastSendTs := d.sendTs)}
    {
      HoldsMeansMember(unacked, d.Num());
      var entries :- Stored(unacked, d);
      unacked := entries;
      r := Ok(());
    }

    method AddRttSample(rttUs: uint32)
      modifies `minRttUs, `ewmaRttUs
      ensures RttState(minRttUs, ewmaRttUs) == WithSample(old(RttState(minRttUs, ewmaRttUs)), rttUs)
    {
      if minRttUs.None? || rttUs < minRttUs.value {
        minRttUs := Some(rttUs);
      }
      if ewmaRttUs.None? {
        ewmaRttUs := Some(rttUs as real);
      } else {
        ewmaRttUs := Some(ALPHA * (rttUs as real) + (1.0 - ALPHA) * ewmaRttUs.value);
      }
    }

    /** Walks backward over the entries before the acknowledged one, updating those due for
        retransmission in place and pushing copies of them to the front of the queue. */
    method RetransmitBefore(acked: nat, now: uint64)
      requires acked <= |unacked| && ewmaRttUs.Some?
      modifies `sendBuf, `unacked
      ensures unacked == Marked(old(unacked)[..acked], now, ewmaRttUs.value) + old(unacked)[acked..]
      ensures sendBuf == Resent(old(unacked)[..acked], now, ewmaRttUs.value) + old(sendBuf)
    {
      ghost var u, ewma := unacked, ewmaRttUs.value;
      WalkEnds(u, acked, now, ewma);
      var rit := acked;
      while rit > 0
        invariant 0 <= rit <= acked
        invariant unacked == u[..rit] + Marked(u[rit..acked], now, ewma) + u[acked..]
        invariant sendBuf == Resent(u[rit..acked], now, ewma) + old(sendBuf)
      {
        rit := rit - 1;
        ResentStep(u, rit, acked, now, ewma, old(sendBuf));
        MarkStep(u, rit, acked, now, ewma);
        var d := unacked[rit];
        if d.numRtx < MAX_NUM_RTX {
          if d.numRtx == 0 || Since(now, d.lastSendTs) as real > ewmaRttUs.value {
            d := d.(numRtx := d.numRtx + 1, lastSendTs := now);
            unacked := unacked[rit := d];
            sendBuf := [d] + sendBuf;
          }
        }
      }
    }

    method HandleAck(ack: AckMsg, now: uint64)
      requires Valid()
      modifies `sendBuf, `unacked, `minRttUs, `ewmaRttUs
      ensures Valid() && State() == Acked(old(State()), ack, now)
    {
      ghost var was := State();
      AddRttSample(Sample(now, ack.sendTs));
      var ackedNum := SeqNum(ack.frameId, ack.fragId);
      var acked := Place(unacked, ackedNum);
      if !Holds(unacked, ackedNum) {
        UnknownIsAcked(was, ack, now);
        return;
      }
      RetransmitBefore(acked, now);
      ErasedIsAcked(was, ack, now, acked, unacked);
      unacked := unacked[..acked] + unacked[acked + 1..];
    }
  }
}
