/** Which events of which descriptors the event loop waits for. */
module Polling {
  import opened Wrappers

  datatype Flag = In | Out

  ghost predicate Watches(events: map<nat, set<Flag>>, fd: nat, flag: Flag) {
    fd in events && flag in events[fd]
  }

  ghost function Joined(events: map<nat, set<Flag>>, fd: nat, flag: Flag): map<nat, set<Flag>> {
    events[fd := (if fd in events then events[fd] else {}) + {flag}]
  }

  ghost function Parted(events: map<nat, set<Flag>>, fd: nat, flag: Flag): map<nat, set<Flag>> {
    events[fd := (if fd in events then events[fd] else {}) - {flag}]
  }

  class Poller {
    var roster: map<nat, set<Flag>>
    var activeEvents: map<nat, set<Flag>>
    var fdsToDeregister: set<nat>

    ghost predicate Valid()
      reads this
    {
      roster.Keys == activeEvents.Keys
    }

    constructor ()
      ensures Valid() && roster == map[] && activeEvents == map[] && fdsToDeregister == {}
    {
      roster := map[];
      activeEvents := map[];
      fdsToDeregister := {};
    }

    /** Registering also activates; registering an event twice throws. */
    method RegisterEvent(fd: nat, flag: Flag) returns (r: Result<()>)
      requires Valid()
      modifies `roster, `activeEvents
      ensures Valid()
      ensures r.Throw? <==> fd in old(roster) && flag in old(roster)[fd]
      ensures r.Throw? ==> roster == old(roster) && activeEvents == old(activeEvents)
      ensures r.Ok? ==>
                && roster == Joined(old(roster), fd, flag)
                && activeEvents == Joined(old(activeEvents), fd, flag)
      ensures r.Ok? ==> forall fd', flag' ::
                && (Watches(roster, fd', flag') <==> Watches(old(roster), fd', flag') || (fd' == fd && flag' == flag))
                && (Watches(activeEvents, fd', flag') <==>
                      Watches(old(activeEvents), fd', flag') || (fd' == fd && flag' == flag))
    {
      assert {} + {flag} == {flag};
      if fd !in roster {
        roster := roster[fd := {flag}];
        activeEvents := activeEvents[fd := {flag}];
      } else {
        if flag in roster[fd] {
          return Throw(AlreadyRegistered);
        }
        roster := roster[fd := roster[fd] + {flag}];
        activeEvents := activeEvents[fd := activeEvents[fd] + {flag}];
      }
      r := Ok(());
    }

    method Activate(fd: nat, flag: Flag) returns (r: Result<()>)
      requires Valid()
      modifies `activeEvents
      ensures Valid()
      ensures r.Ok? <==> fd in old(activeEvents)
      ensures activeEvents == if r.Ok? then Joined(old(activeEvents), fd, flag) else old(activeEvents)
      ensures activeEvents.Keys == old(activeEvents).Keys
      ensures r.Ok? ==> forall fd', flag' ::
                Watches(activeEvents, fd', flag') <==>
                Watches(old(activeEvents), fd', flag') || (fd' == fd && flag' == flag)
    {
      if fd !in activeEvents {
        return Throw(NotRegistered);
      }
      activeEvents := activeEvents[fd := activeEvents[fd] + {flag}];
      r := Ok(());
    }

    method Deactivate(fd: nat, flag: Flag) returns (r: Result<()>)
      requires Valid()
      modifies `activeEvents
      ensures Valid()
      ensures r.Ok? <==> fd in old(activeEvents)
      ensures activeEvents == if r.Ok? then Parted(old(activeEvents), fd, flag) else old(activeEvents)
      ensures activeEvents.Keys == old(activeEvents).Keys
      ensures r.Ok? ==> forall fd', flag' ::
                Watches(activeEvents, fd', flag') <==>
                Watches(old(activeEvents), fd', flag') && !(fd' == fd && flag' == flag)
    {
      if fd !in activeEvents {
        return Throw(NotRegistered);
      }
      activeEvents := activeEvents[fd := activeEvents[fd] - {flag}];
      r := Ok(());
    }

    method Deregister(fd: nat)
      modifies `fdsToDeregister
      ensures fdsToDeregister == old(fdsToDeregister) + {fd}
    {
      fdsToDeregister := fdsToDeregister + {fd};
    }

    method DoDeregister()
      requires Valid()
      modifies this
      ensures Valid() && fdsToDeregister == {}
      ensures roster == old(roster) - old(fdsToDeregister)
      ensures activeEvents == old(activeEvents) - old(fdsToDeregister)
    {
      var rest := fdsToDeregister;
      while rest != {}
        invariant rest <= fdsToDeregister == old(fdsToDeregister)
        invariant roster == old(roster) - (old(fdsToDeregister) - rest)
        invariant activeEvents == old(activeEvents) - (old(fdsToDeregister) - rest)
        decreases rest
      {
        var fd :| fd in rest;
        roster := roster - {fd};
        activeEvents := activeEvents - {fd};
        rest := rest - {fd};
      }
      fdsToDeregister := {};
    }

    /** What one round of polling waits for: after pending deregistrations, every descriptor with
        an active event. */
    method FdsToPoll() returns (fds: map<nat, set<Flag>>)
      requires Valid()
      modifies this
      ensures Valid() && activeEvents == old(activeEvents) - old(fdsToDeregister)
      ensures forall fd, flag :: (fd in fds && flag in fds[fd]) <==>
                (fd in old(activeEvents) && fd !in old(fdsToDeregister) && flag in old(activeEvents)[fd])
    {
      DoDeregister();
      fds := map fd | fd in activeEvents && activeEvents[fd] != {} :: activeEvents[fd];
    }
  }
}

/** The sender's event loop: three callbacks over one encoder and one poller. */
module Sending {
  import opened Wrappers
  import opened Wire
  import opened Protocol
  import opened Rtt
  import opened Encoding
  import opened Polling

  /** The sender's state and whether the loop waits for the socket to become writable. */
  datatype SenderProc = SenderProc(tx: SenderState, watchesOut: bool)

  /** One try to send: the time it is made at, and whether the socket took the datagram. */
  datatype Attempt = Attempt(now: uint64, sent: bool)

  /** One datagram read from the socket, and the time it is handled at. */
  datatype Input = Input(now: uint64, raw: seq<byte>)

  datatype Callback =
    | FrameTimer(now: uint64, ticks: nat, images: nat, codec: bool -> CodecOutput)
    | SocketWritable(attempts: nat -> Attempt)
    | SocketReadable(inputs: seq<Input>)

  /** Reads an image for every expiration of the timer, and compresses the last; images counts what the
      video input still has. */
  ghost function AfterTimer(p: SenderProc, now: uint64, ticks: nat, images: nat,
                            codec: bool -> CodecOutput, limit: nat): Result<SenderProc>
  {
    var output := codec(GivesUp(p.tx, now));
    var t := Compressed(p.tx, now, output.bytes, output.isKey, limit);
    if ticks > images then Throw(EndOfVideo)
    else if t.Throw? then Throw(t.error)
    else Ok(SenderProc(t.value, p.watchesOut || t.value.sendBuf != []))
  }

  /** Sends until the queue is empty or the socket would block. */
  ghost function SentAll(s: SenderState, attempts: nat -> Attempt, k: nat): Result<SenderState>
    decreases |s.sendBuf|
  {
    if s.sendBuf == [] then Ok(s)
    else
      var t := Sent(s, attempts(k).now, attempts(k).sent);
      if t.Throw? || !attempts(k).sent then t
      else SentAll(t.value, attempts, k + 1)
  }

  /** How many of n datagrams the socket takes before it refuses one. */
  ghost function Taken(n: nat, attempts: nat -> Attempt, k: nat): (j: nat)
    ensures j <= n
    decreases n
  {
    if n == 0 || !attempts(k).sent then 0 else 1 + Taken(n - 1, attempts, k + 1)
  }

  lemma {:induction false} TakenExactly(n: nat, attempts: nat -> Attempt, k: nat)
    ensures var j := Taken(n, attempts, k);
            && j <= n && (forall i: nat :: k <= i < k + j ==> attempts(i).sent) && (j < n ==> !attempts(k + j).sent)
    decreases n
  {
    if n > 0 && attempts(k).sent {
      TakenExactly(n - 1, attempts, k + 1);
    }
  }

  /** What goes on the wire. */
  ghost function OnWire(buf: seq<Datagram>, attempts: nat -> Attempt, k: nat): seq<seq<byte>>
    decreases |buf|
  {
    if buf == [] || !attempts(k).sent then []
    else [SerializeDatagram(buf[0].(sendTs := attempts(k).now))] + OnWire(buf[1..], attempts, k + 1)
  }

  /** Exactly the datagrams taken go on the wire, in order, each stamped with the time of its own sending. */
  lemma {:induction false} OnWireExactly(buf: seq<Datagram>, attempts: nat -> Attempt, k: nat, i: nat)
    requires i < Taken(|buf|, attempts, k)
    ensures |OnWire(buf, attempts, k)| == Taken(|buf|, attempts, k) <= |buf|
    ensures OnWire(buf, attempts, k)[i] == SerializeDatagram(buf[i].(sendTs := attempts(k + i).now))
    decreases |buf|
  {
    WireLength(buf, attempts, k);
    if i > 0 {
      OnWireExactly(buf[1..], attempts, k + 1, i - 1);
    }
  }

  lemma {:induction false} WireLength(buf: seq<Datagram>, attempts: nat -> Attempt, k: nat)
    ensures |OnWire(buf, attempts, k)| == Taken(|buf|, attempts, k) <= |buf|
    decreases |buf|
  {
    if buf != [] && attempts(k).sent {
      WireLength(buf[1..], attempts, k + 1);
    }
  }

  lemma WireStep(buf: seq<Datagram>, attempts: nat -> Attempt, k: nat, wire: seq<seq<byte>>)
    requires buf != []
    ensures attempts(k).sent ==>
              wire + OnWire(buf, attempts, k) ==
              wire + [SerializeDatagram(buf[0].(sendTs := attempts(k).now))] + OnWire(buf[1..], attempts, k + 1)
    ensures !attempts(k).sent ==> wire + OnWire(buf, attempts, k) == wire
  {
    if attempts(k).sent {
      Assoc(wire, [SerializeDatagram(buf[0].(sendTs := attempts(k).now))], OnWire(buf[1..], attempts, k + 1));
    }
  }

  /** The queue once the first j datagrams were taken: the next one, if there is one, was refused and has
      its timestamp cleared. */
  ghost function QueueLeft(buf: seq<Datagram>, j: nat): seq<Datagram>
    requires j <= |buf|
  {
    if j == |buf| then [] else [buf[j].(sendTs := 0)] + buf[j + 1..]
  }

  lemma QueueLeftStep(buf: seq<Datagram>, j: nat)
    requires 0 < j <= |buf|
    ensures QueueLeft(buf[1..], j - 1) == QueueLeft(buf, j)
  {
  }

  /** The first transmissions among the datagrams taken, as they are tracked. */
  ghost function NewlyTracked(buf: seq<Datagram>, attempts: nat -> Attempt, k: nat): multiset<Datagram>
    decreases |buf|
  {
    if buf == [] || !attempts(k).sent then multiset{}
    else
      (if buf[0].numRtx == 0 then multiset{buf[0].(sendTs := attempts(k).now, lastSendTs := attempts(k).now)}
       else multiset{}) +
      NewlyTracked(buf[1..], attempts, k + 1)
  }

  lemma SentOne(s: SenderState, now: uint64)
    requires s.sendBuf != [] && Ordered(s.unacked) && Sent(s, now, true).Ok?
    ensures var d := s.sendBuf[0];
            var t := Sent(s, now, true).value;
            && t.sendBuf == s.sendBuf[1..] && t.frameId == s.frameId && t.rtt == s.rtt && Ordered(t.unacked)
            && multiset(t.unacked) == multiset(s.unacked) +
                 if d.numRtx == 0 then multiset{d.(sendTs := now, lastSendTs := now)} else multiset{}
  {
    SentExactly(s, now, true);
  }

  lemma {:induction false} SentAllTracks(s: SenderState, attempts: nat -> Attempt, k: nat)
    requires Ordered(s.unacked) && SentAll(s, attempts, k).Ok?
    ensures var t := SentAll(s, attempts, k).value;
            Ordered(t.unacked) && multiset(t.unacked) == multiset(s.unacked) + NewlyTracked(s.sendBuf, attempts, k)
    decreases |s.sendBuf|
  {
    if s.sendBuf != [] && attempts(k).sent {
      SentOne(s, attempts(k).now);
      SentAllTracks(Sent(s, attempts(k).now, true).value, attempts, k + 1);
    }
  }

  lemma {:induction false} SentAllLeaves(s: SenderState, attempts: nat -> Attempt, k: nat)
    requires Ordered(s.unacked) && SentAll(s, attempts, k).Ok?
    ensures var t := SentAll(s, attempts, k).value;
            && t.sendBuf == QueueLeft(s.sendBuf, Taken(|s.sendBuf|, attempts, k))
            && t.frameId == s.frameId && t.rtt == s.rtt
    decreases |s.sendBuf|
  {
    if s.sendBuf != [] && attempts(k).sent {
      SentOne(s, attempts(k).now);
      SentAllLeaves(Sent(s, attempts(k).now, true).value, attempts, k + 1);
      QueueLeftStep(s.sendBuf, Taken(|s.sendBuf|, attempts, k));
    }
  }

  /** A whole round of sending: exactly the datagrams taken leave the queue, and exactly the first
      transmissions among them are tracked. */
  lemma SentAllExactly(s: SenderState, attempts: nat -> Attempt, k: nat)
    requires Ordered(s.unacked) && SentAll(s, attempts, k).Ok?
    ensures var t := SentAll(s, attempts, k).value;
            && t.sendBuf == QueueLeft(s.sendBuf, Taken(|s.sendBuf|, attempts, k))
            && multiset(t.unacked) == multiset(s.unacked) + NewlyTracked(s.sendBuf, attempts, k)
            && Ordered(t.unacked) && t.frameId == s.frameId && t.rtt == s.rtt
  {
    SentAllTracks(s, attempts, k);
    SentAllLeaves(s, attempts, k);
  }

  ghost function AfterWritable(p: SenderProc, attempts: nat -> Attempt): Result<SenderProc> {
    var t := SentAll(p.tx, attempts, 0);
    if t.Throw? then Throw(t.error)
    else Ok(SenderProc(t.value, p.watchesOut && t.value.sendBuf != []))
  }

  /** Handles acknowledgements until the socket is drained or something else arrives. */
  ghost function AfterReadable(p: SenderProc, inputs: seq<Input>): Result<SenderProc>
    decreases |inputs|
  {
    if inputs == [] then Ok(p)
    else
      var m := ParsedMsg(inputs[0].raw);
      if m.Throw? then Throw(m.error)
      else if m.value.None? || !m.value.value.Ack? then Ok(p)
      else
        var s := Acked(p.tx, m.value.value.ack, inputs[0].now);
        AfterReadable(SenderProc(s, p.watchesOut || s.sendBuf != []), inputs[1..])
  }

  lemma ReadStep(p: SenderProc, inputs: seq<Input>, i: nat)
    requires i < |inputs|
    ensures var m := ParsedMsg(inputs[i].raw);
            AfterReadable(p, inputs[i..]) ==
            if m.Throw? then Throw(m.error)
            else if m.value.None? || !m.value.value.Ack? then Ok(p)
            else
              var s := Acked(p.tx, m.value.value.ack, inputs[i].now);
              AfterReadable(SenderProc(s, p.watchesOut || s.sendBuf != []), inputs[i + 1..])
  {
    assert inputs[i..][0] == inputs[i] && inputs[i..][1..] == inputs[i + 1..];
  }

  ghost predicate AckBytes(raw: seq<byte>) {
    |raw| >= 15 && raw[0] == 1
  }

  /** A message cut short: of type ACK or CONFIG, but without all its fields. */
  ghost predicate CutShort(raw: seq<byte>) {
    |raw| > 0 && ((raw[0] == 1 && |raw| < 15) || (raw[0] == 2 && |raw| < 11))
  }

  /** A message of any other kind, complete or not recognised, is ignored. */
  ghost predicate Ignored(raw: seq<byte>) {
    !AckBytes(raw) && !CutShort(raw)
  }

  /** Handling acknowledgements one after another. */
  ghost function AckedAll(s: SenderState, inputs: seq<Input>, acks: seq<AckMsg>): SenderState
    requires |acks| <= |inputs|
    decreases |acks|
  {
    if acks == [] then s else AckedAll(Acked(s, acks[0], inputs[0].now), inputs[1..], acks[1..])
  }

  /** Reading acknowledgements, and then nothing or something that is no acknowledgement, handles exactly
      these; whatever comes behind is left unread; only a message cut short throws. */
  lemma {:induction false} ReadableExactly(p: SenderProc, inputs: seq<Input>, acks: seq<AckMsg>)
    requires |acks| <= |inputs| && forall i :: 0 <= i < |acks| ==> ParsedMsg(inputs[i].raw) == Ok(Some(Ack(acks[i])))
    requires |acks| < |inputs| ==> !AckBytes(inputs[|acks|].raw)
    ensures var tx := AckedAll(p.tx, inputs, acks);
            AfterReadable(p, inputs) ==
            if |acks| < |inputs| && CutShort(inputs[|acks|].raw) then Throw(ReadPastEnd)
            else Ok(SenderProc(tx, p.watchesOut || (acks != [] && tx.sendBuf != [])))
    decreases |inputs|
  {
    if inputs != [] {
      ParsedMsgExactly(inputs[0].raw);
      if acks != [] {
        var s := Acked(p.tx, acks[0], inputs[0].now);
        ReadableExactly(SenderProc(s, p.watchesOut || s.sendBuf != []), inputs[1..], acks[1..]);
        if s.sendBuf != [] {
          QueueStays(s, inputs[1..], acks[1..]);
        }
      }
    }
  }

  lemma {:induction false} QueueStays(s: SenderState, inputs: seq<Input>, acks: seq<AckMsg>)
    requires |acks| <= |inputs| && s.sendBuf != []
    ensures AckedAll(s, inputs, acks).sendBuf != []
    decreases |acks|
  {
    if acks != [] {
      QueueStays(Acked(s, acks[0], inputs[0].now), inputs[1..], acks[1..]);
    }
  }

  /** The first message that is no acknowledgement ends the reading; it is ignored, together with all that
      comes behind it, unless it is cut short. */
  lemma {:induction false} ReadableStopsAtOther(p: SenderProc, inputs: seq<Input>, k: nat)
    requires k < |inputs| && (forall i :: 0 <= i < k ==> AckBytes(inputs[i].raw)) && !AckBytes(inputs[k].raw)
    ensures AfterReadable(p, inputs[..k]).Ok?
    ensures AfterReadable(p, inputs) ==
            if CutShort(inputs[k].raw) then Throw(ReadPastEnd) else AfterReadable(p, inputs[..k])
    decreases k
  {
    ParsedMsgExactly(inputs[0].raw);
    if k > 0 {
      var s := Acked(p.tx, ParsedMsg(inputs[0].raw).value.value.ack, inputs[0].now);
      assert inputs[..k][1..] == inputs[1..][..k - 1];
      ReadableStopsAtOther(SenderProc(s, p.watchesOut || s.sendBuf != []), inputs[1..], k - 1);
    }
  }

  ghost function AfterCallback(p: SenderProc, c: Callback, limit: nat): Result<SenderProc> {
    match c
    case FrameTimer(now, ticks, images, codec) => AfterTimer(p, now, ticks, images, codec, limit)
    case SocketWritable(attempts) => AfterWritable(p, attempts)
    case SocketReadable(inputs) => AfterReadable(p, inputs)
  }

  const START := SenderProc(SenderState(0, [], [], NO_RTT), true)

  ghost function AfterAll(cs: seq<Callback>, limit: nat): Result<SenderProc> {
    if cs == [] then Ok(START)
    else
      var r := AfterAll(cs[..|cs| - 1], limit);
      if r.Throw? then r else AfterCallback(r.value, cs[|cs| - 1], limit)
  }

  // ---------- the loop never sleeps on queued datagrams ----------

  ghost predicate Awake(p: SenderProc) {
    p.tx.sendBuf != [] ==> p.watchesOut
  }

  ghost predicate Idle(p: SenderProc) {
    p.tx.sendBuf == [] ==> !p.watchesOut
  }

  lemma {:induction false} ReadableKeepsWatch(p: SenderProc, inputs: seq<Input>)
    requires AfterReadable(p, inputs).Ok?
    ensures Awake(p) ==> Awake(AfterReadable(p, inputs).value)
    ensures Idle(p) ==> Idle(AfterReadable(p, inputs).value)
    decreases |inputs|
  {
    if inputs != [] {
      var m := ParsedMsg(inputs[0].raw);
      if m.value.Some? && m.value.value.Ack? {
        var s := Acked(p.tx, m.value.value.ack, inputs[0].now);
        ReadableKeepsWatch(SenderProc(s, p.watchesOut || s.sendBuf != []), inputs[1..]);
      }
    }
  }

  lemma CallbackKeepsWatch(p: SenderProc, c: Callback, limit: nat)
    requires Awake(p) && AfterCallback(p, c, limit).Ok?
    ensures Awake(AfterCallback(p, c, limit).value)
    ensures Idle(p) || !c.SocketReadable? ==> Idle(AfterCallback(p, c, limit).value)
  {
    if c.SocketReadable? {
      ReadableKeepsWatch(p, c.inputs);
    }
  }

  /** Between any callbacks, in any order, a non-empty queue means the loop waits for a writable
      socket; and once a timer or writable callback has run, an empty queue means it does not. */
  lemma {:induction false} NeverSleepsOnQueue(cs: seq<Callback>, limit: nat)
    requires AfterAll(cs, limit).Ok?
    ensures var p := AfterAll(cs, limit).value;
            && (p.tx.sendBuf != [] ==> p.watchesOut)
            && ((exists i :: 0 <= i < |cs| && !cs[i].SocketReadable?) ==> (p.watchesOut ==> p.tx.sendBuf != []))
  {
    if cs != [] {
      var front, last := cs[..|cs| - 1], cs[|cs| - 1];
      NeverSleepsOnQueue(front, limit);
      CallbackKeepsWatch(AfterAll(front, limit).value, last, limit);
      if i :| 0 <= i < |cs| && !cs[i].SocketReadable? {
        if last.SocketReadable? {
          assert !front[i].SocketReadable?;
        }
      }
    }
  }

  // ---------- the event loop object ----------

  class VideoSender {
    const encoder: Encoder
    const poller: Poller
    const fpsTimer: nat
    const udpSock: nat
    const statsTimer: nat
    const limit: nat

    ghost function Proc(): SenderProc
      requires udpSock in poller.activeEvents
      reads encoder, poller
    {
      SenderProc(encoder.State(), Out in poller.activeEvents[udpSock])
    }

    ghost predicate Valid()
      reads encoder, poller
    {
      && encoder.Valid() && poller.Valid() && poller.fdsToDeregister == {}
      && poller.activeEvents.Keys == {fpsTimer, udpSock, statsTimer}
      && Watches(poller.activeEvents, fpsTimer, In) && Watches(poller.activeEvents, statsTimer, In)
      && Watches(poller.activeEvents, udpSock, In)
      && Awake(Proc())
    }

    /** Registering the callbacks makes the loop wait for a writable socket from the start. */
    constructor (fpsTimer: nat, udpSock: nat, statsTimer: nat, limit: nat)
      requires fpsTimer != udpSock && udpSock != statsTimer && statsTimer != fpsTimer
      ensures Valid() && Proc() == START && fresh(encoder) && fresh(poller)
      ensures this.fpsTimer == fpsTimer && this.udpSock == udpSock && this.statsTimer == statsTimer
      ensures this.limit == limit
      ensures poller.activeEvents.Keys == {fpsTimer, udpSock, statsTimer}
      ensures poller.activeEvents[fpsTimer] == poller.activeEvents[statsTimer] == {In}
      ensures poller.activeEvents[udpSock] == {In, Out}
    {
      var p := new Poller();
      encoder := new Encoder();
      poller := p;
      this.fpsTimer, this.udpSock, this.statsTimer := fpsTimer, udpSock, statsTimer;
      this.limit := limit;
      new;
      var r1 := p.RegisterEvent(fpsTimer, In);
      var r2 := p.RegisterEvent(udpSock, Out);
      var r3 := p.RegisterEvent(udpSock, In);
      var r4 := p.RegisterEvent(statsTimer, In);
      assert r1.Ok? && r2.Ok? && r3.Ok? && r4.Ok?;
      assert p.activeEvents[udpSock] == {In, Out};
    }

    method OnFrameTimer(now: uint64, ticks: nat, images: nat, codec: bool -> CodecOutput) returns (r: Result<()>)
      requires Valid()
      modifies encoder, poller
      ensures r.Throw? ==> AfterTimer(old(Proc()), now, ticks, images, codec, limit) == Throw(r.error)
      ensures r.Ok? ==> Valid() && AfterTimer(old(Proc()), now, ticks, images, codec, limit) == Ok(Proc())
    {
      for i := 0 to ticks
        invariant i <= images
      {
        if i == images {
          return Throw(EndOfVideo);
        }
      }
      r := encoder.CompressFrame(now, codec, limit);
      if r.Throw? {
        return;
      }
      if encoder.sendBuf != [] {
        var activated := poller.Activate(udpSock, Out);
      }
    }

    /** One try to send the datagram at the front. */
    method TrySend(attempt: Attempt) returns (r: Result<()>, binary: seq<byte>)
      requires encoder.Valid() && encoder.sendBuf != []
      modifies encoder
      ensures binary == SerializeDatagram(old(encoder.sendBuf)[0].(sendTs := attempt.now))
      ensures r.Throw? ==> Sent(old(encoder.State()), attempt.now, attempt.sent) == Throw(r.error)
      ensures r.Ok? ==> encoder.Valid() && Sent(old(encoder.State()), attempt.now, attempt.sent) == Ok(encoder.State())
    {
      var d := encoder.sendBuf[0].(sendTs := attempt.now);
      encoder.sendBuf := [d] + encoder.sendBuf[1..];
      binary := SerializeDatagram(d);
      r := Ok(());
      if attempt.sent {
        if d.numRtx == 0 {
          r := encoder.AddUnacked(d);
          if r.Throw? {
            return;
          }
        }
        encoder.sendBuf := encoder.sendBuf[1..];
      } else {
        encoder.sendBuf := [d.(sendTs := 0)] + encoder.sendBuf[1..];
      }
    }

    /** wire is what the socket took. */
    method OnSocketWritable(attempts: nat -> Attempt) returns (r: Result<()>, wire: seq<seq<byte>>)
      requires Valid()
      modifies encoder, poller
      ensures r.Throw? ==> AfterWritable(old(Proc()), attempts) == Throw(r.error)
      ensures r.Ok? ==> Valid() && AfterWritable(old(Proc()), attempts) == Ok(Proc())
      ensures r.Ok? ==> wire == OnWire(old(encoder.sendBuf), attempts, 0)
    {
      ghost var was := encoder.State();
      var k := 0;
      var blocked := false;
      wire := [];
      while encoder.sendBuf != [] && !blocked
        invariant encoder.Valid()
        invariant if blocked
                  then SentAll(was, attempts, 0) == Ok(encoder.State()) && wire == OnWire(was.sendBuf, attempts, 0)
                  else SentAll(was, attempts, 0) == SentAll(encoder.State(), attempts, k) &&
                       OnWire(was.sendBuf, attempts, 0) == wire + OnWire(encoder.sendBuf, attempts, k)
        decreases |encoder.sendBuf|, !blocked
        modifies encoder
      {
        WireStep(encoder.sendBuf, attempts, k, wire);
        var binary;
        r, binary := TrySend(attempts(k));
        if r.Throw? {
          return;
        }
        if attempts(k).sent {
          wire := wire + [binary];
          k := k + 1;
        } else {
          blocked := true;
        }
      }
      if encoder.sendBuf == [] {
        var deactivated := poller.Deactivate(udpSock, Out);
      }
      r := Ok(());
    }

    method HandleOneAck(ack: AckMsg, now: uint64)
      requires Valid()
      modifies encoder, poller
      ensures Valid()
      ensures var s := Acked(old(Proc().tx), ack, now);
              Proc() == SenderProc(s, old(Proc().watchesOut) || s.sendBuf != [])
    {
      encoder.HandleAck(ack, now);
      if encoder.sendBuf != [] {
        var activated := poller.Activate(udpSock, Out);
      }
    }

    method OnSocketReadable(inputs: seq<Input>) returns (r: Result<()>)
      requires Valid()
      modifies encoder, poller
      ensures r.Throw? ==> AfterReadable(old(Proc()), inputs) == Throw(r.error)
      ensures r.Ok? ==> Valid() && AfterReadable(old(Proc()), inputs) == Ok(Proc())
    {
      ghost var was := Proc();
      var i := 0;
      while i < |inputs|
        invariant 0 <= i <= |inputs|
        invariant Valid()
        invariant AfterReadable(Proc(), inputs[i..]) == AfterReadable(was, inputs)
      {
        ghost var p := Proc();
        ReadStep(p, inputs, i);
        var msg :- ParseMsg(inputs[i].raw);
        assert Proc() == p;
        if msg.None? || !msg.value.Ack? {
          return Ok(());
        }
        HandleOneAck(msg.value.ack, inputs[i].now);
        i := i + 1;
      }
      r := Ok(());
    }
  }
}
