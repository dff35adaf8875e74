/** The event loop's callbacks are runs of the composed system, so its guarantees are theirs. */
module EventLoop {
  import opened Wrappers
  import opened Wire
  import opened Protocol
  import opened Encoding
  import opened Confluence
  import opened Decoding
  import opened Transport
  import opened Guarantees
  import Receiving
  import Sending

  ghost predicate ClockRuns(from: uint64, attempts: nat -> Sending.Attempt) {
    forall k: nat :: from <= attempts(k).now <= attempts(k + 1).now
  }

  ghost function SendActions(tx: SenderState, attempts: nat -> Sending.Attempt, k: nat): seq<Action>
    decreases |tx.sendBuf|
  {
    if tx.sendBuf == [] then []
    else
      var a := Send(attempts(k).now, attempts(k).sent);
      var t := Sent(tx, attempts(k).now, attempts(k).sent);
      if t.Throw? || !attempts(k).sent then [a] else [a] + SendActions(t.value, attempts, k + 1)
  }

  /** Unfolding the sending loop by one datagram the socket took. */
  lemma SendOnward(tx: SenderState, t: SenderState, attempts: nat -> Sending.Attempt, k: nat)
    requires tx.sendBuf != [] && attempts(k).sent && Sent(tx, attempts(k).now, true) == Ok(t)
    ensures SendActions(tx, attempts, k) == [Send(attempts(k).now, true)] + SendActions(t, attempts, k + 1)
    ensures Sending.SentAll(tx, attempts, k) == Sending.SentAll(t, attempts, k + 1)
  {
  }

  lemma SendBlocked(tx: SenderState, t: SenderState, attempts: nat -> Sending.Attempt, k: nat)
    requires tx.sendBuf != [] && !attempts(k).sent && Sent(tx, attempts(k).now, false) == Ok(t)
    ensures SendActions(tx, attempts, k) == [Send(attempts(k).now, false)]
    ensures Sending.SentAll(tx, attempts, k) == Ok(t)
  {
  }

  /** The datagrams that binaries on the wire carry. */
  ghost function Carried(wire: seq<seq<byte>>): set<Datagram> {
    if wire == [] then {}
    else
      var d := ParsedDatagram(wire[0]);
      (if d.Some? then {d.value} else {}) + Carried(wire[1..])
  }

  /** One more datagram on the wire, and what it adds to the network. */
  lemma CarriedOnward(buf: seq<Datagram>, attempts: nat -> Sending.Attempt, k: nat, net: set<Datagram>)
    requires buf != []
    ensures var d := buf[0].(sendTs := attempts(k).now);
            net + Carried(Sending.OnWire(buf, attempts, k)) ==
            if attempts(k).sent then net + {Transmitted(d)} + Carried(Sending.OnWire(buf[1..], attempts, k + 1))
            else net
  {
    var d := buf[0].(sendTs := attempts(k).now);
    if attempts(k).sent {
      var rest := Sending.OnWire(buf[1..], attempts, k + 1);
      DatagramRoundTrip(d);
      assert ([SerializeDatagram(d)] + rest)[1..] == rest;
    }
  }

  /** Draining the queue into the socket is a run of single sends; it never throws. What it adds to the
      network is what went on the wire. */
  lemma {:induction false} WritableIsSends(s: System, attempts: nat -> Sending.Attempt, k: nat, limit: nat)
      returns (t: System)
    requires Inv(s) && attempts(k).now >= s.clock && ClockRuns(0, attempts)
    ensures Allowed(s, SendActions(s.tx, attempts, k), limit)
    ensures RunFrom(s, SendActions(s.tx, attempts, k), limit) == Ok(t)
    ensures Sending.SentAll(s.tx, attempts, k) == Ok(t.tx)
    ensures t.rx == s.rx && t.acks == s.acks
    ensures t.net == s.net + Carried(Sending.OnWire(s.tx.sendBuf, attempts, k))
    decreases |s.tx.sendBuf|
  {
    if s.tx.sendBuf == [] {
      return s;
    }
    var now, sent := attempts(k).now, attempts(k).sent;
    var u := SendStep(s, now, sent, limit);
    CarriedOnward(s.tx.sendBuf, attempts, k, s.net);
    if sent {
      assert attempts(k + 1).now >= now;
      t := WritableIsSends(u, attempts, k + 1, limit);
      SendOnward(s.tx, u.tx, attempts, k);
      RunCons(s, Send(now, sent), u, SendActions(u.tx, attempts, k + 1), limit);
    } else {
      t := u;
      SendBlocked(s.tx, u.tx, attempts, k);
      RunOne(s, Send(now, sent), u, limit);
    }
  }

  /** Inputs read in the order of time: acknowledgements of this receiver, and perhaps behind them a
      message that is ignored and ends the reading. */
  ghost predicate AcksOf(s: System, inputs: seq<Sending.Input>, acks: seq<AckMsg>) {
    && |acks| <= |inputs|
    && (forall i :: 0 <= i < |acks| ==> acks[i] in s.acks && inputs[i].raw == SerializeMsg(Ack(acks[i])))
    && (|acks| < |inputs| ==> Sending.Ignored(inputs[|acks|].raw))
    && (forall i :: 0 <= i < |acks| ==> s.clock <= inputs[i].now)
    && (forall i, j :: 0 <= i < j < |acks| ==> inputs[i].now <= inputs[j].now)
  }

  ghost function AckActions(inputs: seq<Sending.Input>, acks: seq<AckMsg>): seq<Action>
    requires |acks| <= |inputs|
  {
    if acks == [] then [] else [HandleAck(inputs[0].now, acks[0])] + AckActions(inputs[1..], acks[1..])
  }

  /** One acknowledgement read off the wire is handled before the rest. */
  lemma ReadOne(p: Sending.SenderProc, inputs: seq<Sending.Input>, ack: AckMsg)
    requires inputs != [] && inputs[0].raw == SerializeMsg(Ack(ack))
    ensures var tx := Acked(p.tx, ack, inputs[0].now);
            Sending.AfterReadable(p, inputs) ==
            Sending.AfterReadable(Sending.SenderProc(tx, p.watchesOut || tx.sendBuf != []), inputs[1..])
  {
    MsgRoundTrip(Ack(ack), []);
    assert inputs[0].raw + [] == inputs[0].raw;
  }

  lemma ReadNone(p: Sending.SenderProc, inputs: seq<Sending.Input>)
    requires inputs != [] ==> Sending.Ignored(inputs[0].raw)
    ensures Sending.AfterReadable(p, inputs) == Ok(p)
  {
    if inputs != [] {
      Sending.ReadableStopsAtOther(p, inputs, 0);
    }
  }

  lemma AcksOfRest(s: System, t: System, inputs: seq<Sending.Input>, acks: seq<AckMsg>)
    requires AcksOf(s, inputs, acks) && acks != [] && t.acks == s.acks && t.clock == inputs[0].now
    ensures AcksOf(t, inputs[1..], acks[1..])
  {
  }

  /** Reading the socket is a run of single acknowledgement steps, also when something else arrives. */
  lemma {:induction false} ReadableIsAcks(s: System, inputs: seq<Sending.Input>, acks: seq<AckMsg>,
                                          out: bool, limit: nat)
      returns (t: System)
    requires Inv(s) && AcksOf(s, inputs, acks)
    ensures Allowed(s, AckActions(inputs, acks), limit) && RunFrom(s, AckActions(inputs, acks), limit) == Ok(t)
    ensures var after := Sending.AfterReadable(Sending.SenderProc(s.tx, out), inputs);
            after.Ok? && after.value.tx == t.tx
    ensures t.rx == s.rx && t.net == s.net && t.acks == s.acks
    decreases |inputs|
  {
    if acks == [] {
      ReadNone(Sending.SenderProc(s.tx, out), inputs);
      return s;
    }
    var u := AckStep(s, inputs[0].now, acks[0], limit);
    ReadOne(Sending.SenderProc(s.tx, out), inputs, acks[0]);
    AcksOfRest(s, u, inputs, acks);
    t := ReadableIsAcks(u, inputs[1..], acks[1..], out || u.tx.sendBuf != [], limit);
    RunCons(s, HandleAck(inputs[0].now, acks[0]), u, AckActions(inputs[1..], acks[1..]), limit);
  }

  /** What the codec promises, and what keeps frame ids from wrapping. */
  ghost predicate CodecOk(s: System, now: uint64, codec: bool -> CodecOutput) {
    now >= s.clock && s.tx.frameId < 0xFFFF_FFFF && codec(GivesUp(s.tx, now)).bytes != [] && codec(true).isKey
  }

  ghost function TickOf(s: System, now: uint64, codec: bool -> CodecOutput): Action {
    var output := codec(GivesUp(s.tx, now));
    Tick(now, output.bytes, output.isKey)
  }

  /** A frame tick is one step; it throws only when the video ends, or for a frame of too many
      fragments. */
  lemma TimerIsTick(s: System, now: uint64, ticks: nat, images: nat, codec: bool -> CodecOutput,
                    out: bool, limit: nat)
    requires Inv(s) && CodecOk(s, now, codec)
    ensures var a := TickOf(s, now, codec);
            var after := Sending.AfterTimer(Sending.SenderProc(s.tx, out), now, ticks, images, codec, limit);
            && Enabled(s, a)
            && (after == Throw(EndOfVideo) <==> ticks > images)
            && (after == Throw(PrecisionLost) <==> ticks <= images && Oversize(a, limit))
            && (after.Ok? <==> ticks <= images && !Oversize(a, limit))
            && (after.Ok? ==>
                  && After(s, a, limit).Ok?
                  && var t := After(s, a, limit).value;
                     after.value.tx == t.tx && t.rx == s.rx && t.net == s.net && t.acks == s.acks)
  {
    StepKeepsInv(s, TickOf(s, now, codec), limit);
  }

  // ---------- both programs, driven by events ----------

  /** What may happen next: one of the sender's callbacks, or a datagram at the receiver. acks are the
      acknowledgements at the front of the inputs the sender reads. */
  datatype Event =
    | Timer(now: uint64, ticks: nat, images: nat, codec: bool -> CodecOutput)
    | Writable(attempts: nat -> Sending.Attempt)
    | Readable(inputs: seq<Sending.Input>, acks: seq<AckMsg>)
    | Arrival(binary: seq<byte>)

  /** The sender's process and the receiver's decoder, and what the two programs have put on the wire. */
  datatype Ends = Ends(proc: Sending.SenderProc, rx: DecoderState, sent: set<Datagram>, answers: set<AckMsg>)

  ghost function EndsOf(s: System, out: bool): Ends {
    Ends(Sending.SenderProc(s.tx, out), s.rx, s.net, s.acks)
  }

  /** The acknowledgements that messages on the wire carry. */
  ghost function Answered(wire: seq<seq<byte>>): set<AckMsg> {
    if wire == [] then {}
    else
      var m := ParsedMsg(wire[0]);
      (if m.Ok? && m.value.Some? && m.value.value.Ack? then {m.value.value.ack} else {}) + Answered(wire[1..])
  }

  lemma AnsweredOnce(ack: AckMsg)
    ensures Answered([SerializeMsg(Ack(ack))]) == {ack}
  {
    MsgRoundTrip(Ack(ack), []);
    assert SerializeMsg(Ack(ack)) + [] == SerializeMsg(Ack(ack));
    assert [SerializeMsg(Ack(ack))][1..] == [];
  }

  /** What the two programs do on their own, as proved of their callbacks and their loop. */
  ghost function AfterEvent(e: Ends, ev: Event, limit: nat): (r: Result<Ends>)
    requires DecoderOk(e.rx)
    ensures r.Ok? ==> DecoderOk(r.value.rx)
  {
    if ev.Arrival? then
      var rx := Receiving.Looped(e.rx, [ev.binary]);
      var answers := Answered(Receiving.AcksSent(e.rx, [ev.binary]));
      if rx.Throw? then Throw(rx.error) else Ok(e.(rx := rx.value, answers := e.answers + answers))
    else
      var proc := match ev
        case Timer(now, ticks, images, codec) => Sending.AfterTimer(e.proc, now, ticks, images, codec, limit)
        case Writable(attempts) => Sending.AfterWritable(e.proc, attempts)
        case Readable(inputs, _) => Sending.AfterReadable(e.proc, inputs);
      var sent := if ev.Writable? then Carried(Sending.OnWire(e.proc.tx.sendBuf, ev.attempts, 0)) else {};
      if proc.Throw? then Throw(proc.error) else Ok(e.(proc := proc.value, sent := e.sent + sent))
  }

  /** What the codec, the clock and the network may do in a state of the composed system. */
  ghost predicate Possible(s: System, ev: Event) {
    match ev
    case Timer(now, _, _, codec) => CodecOk(s, now, codec)
    case Writable(attempts) => attempts(0).now >= s.clock && ClockRuns(0, attempts)
    case Readable(inputs, acks) => AcksOf(s, inputs, acks)
    case Arrival(binary) => |binary| >= HEADER_SIZE && ParsedDatagram(binary).value in s.net
  }

  /** The steps of the composed system that an event stands for. */
  ghost function ActionsOf(s: System, ev: Event): seq<Action> {
    match ev
    case Timer(now, ticks, images, codec) => if ticks > images then [] else [TickOf(s, now, codec)]
    case Writable(attempts) => SendActions(s.tx, attempts, 0)
    case Readable(inputs, acks) => if |acks| <= |inputs| then AckActions(inputs, acks) else []
    case Arrival(binary) => if |binary| < HEADER_SIZE then [] else [Deliver(ParsedDatagram(binary).value)]
  }

  lemma ArrivalIsDelivery(s: System, binary: seq<byte>, limit: nat) returns (t: System)
    requires Inv(s) && Possible(s, Arrival(binary))
    ensures After(s, Deliver(ParsedDatagram(binary).value), limit) == Ok(t) && Inv(t)
    ensures t.tx == s.tx && t.net == s.net && Receiving.Looped(s.rx, [binary]) == Ok(t.rx)
    ensures t.acks == s.acks + Answered(Receiving.AcksSent(s.rx, [binary]))
  {
    t := DeliverStep(s, ParsedDatagram(binary).value, limit);
    Receiving.LoopedOnce(s.rx, binary);
    AnsweredOnce(AckOf(ParsedDatagram(binary).value));
  }

  /** The two events that raise an exception: the video has ended, or the codec's frame is too large. */
  ghost predicate RunsDry(ev: Event) {
    ev.Timer? && ev.ticks > ev.images
  }

  ghost predicate TooLarge(ev: Event, limit: nat) {
    ev.Timer? && exists key :: |ev.codec(key).bytes| / (limit + 1) + 1 > 65535
  }

  ghost predicate Explained(error: Error, ev: Event, limit: nat) {
    (error == EndOfVideo && RunsDry(ev)) || (error == PrecisionLost && TooLarge(ev, limit))
  }

  lemma TimerEvent(s: System, out: bool, now: uint64, ticks: nat, images: nat, codec: bool -> CodecOutput,
                   limit: nat)
      returns (t: System)
    requires Inv(s) && CodecOk(s, now, codec) && ticks <= images && !Oversize(TickOf(s, now, codec), limit)
    ensures Allowed(s, [TickOf(s, now, codec)], limit) && RunFrom(s, [TickOf(s, now, codec)], limit) == Ok(t)
    ensures AfterEvent(EndsOf(s, out), Timer(now, ticks, images, codec), limit).Ok?
    ensures var r := AfterEvent(EndsOf(s, out), Timer(now, ticks, images, codec), limit).value;
            r == EndsOf(t, r.proc.watchesOut)
  {
    TimerIsTick(s, now, ticks, images, codec, out, limit);
    t := After(s, TickOf(s, now, codec), limit).value;
    RunOne(s, TickOf(s, now, codec), t, limit);
  }

  lemma WritableEvent(s: System, out: bool, attempts: nat -> Sending.Attempt, limit: nat) returns (t: System)
    requires Inv(s) && attempts(0).now >= s.clock && ClockRuns(0, attempts)
    ensures Allowed(s, SendActions(s.tx, attempts, 0), limit)
    ensures RunFrom(s, SendActions(s.tx, attempts, 0), limit) == Ok(t)
    ensures AfterEvent(EndsOf(s, out), Writable(attempts), limit).Ok?
    ensures var r := AfterEvent(EndsOf(s, out), Writable(attempts), limit).value;
            r == EndsOf(t, r.proc.watchesOut)
  {
    t := WritableIsSends(s, attempts, 0, limit);
  }

  lemma ReadableEvent(s: System, out: bool, inputs: seq<Sending.Input>, acks: seq<AckMsg>, limit: nat)
      returns (t: System)
    requires Inv(s) && AcksOf(s, inputs, acks)
    ensures Allowed(s, AckActions(inputs, acks), limit) && RunFrom(s, AckActions(inputs, acks), limit) == Ok(t)
    ensures AfterEvent(EndsOf(s, out), Readable(inputs, acks), limit).Ok?
    ensures var r := AfterEvent(EndsOf(s, out), Readable(inputs, acks), limit).value;
            r == EndsOf(t, r.proc.watchesOut)
  {
    t := ReadableIsAcks(s, inputs, acks, out, limit);
  }

  lemma ArrivalEvent(s: System, out: bool, binary: seq<byte>, limit: nat) returns (t: System)
    requires Inv(s) && Possible(s, Arrival(binary))
    ensures Allowed(s, ActionsOf(s, Arrival(binary)), limit)
    ensures RunFrom(s, ActionsOf(s, Arrival(binary)), limit) == Ok(t)
    ensures AfterEvent(EndsOf(s, out), Arrival(binary), limit) == Ok(EndsOf(t, out))
  {
    t := ArrivalIsDelivery(s, binary, limit);
    RunOne(s, Deliver(ParsedDatagram(binary).value), t, limit);
  }

  /** An event that does not throw is a run of the composed system. */
  lemma EventRuns(s: System, out: bool, ev: Event, limit: nat)
    requires Inv(s) && Possible(s, ev)
    ensures var r := AfterEvent(EndsOf(s, out), ev, limit);
            && (r.Throw? ==> Explained(r.error, ev, limit))
            && (RunsDry(ev) ==> r == Throw(EndOfVideo))
            && (r.Ok? ==> Allowed(s, ActionsOf(s, ev), limit) && RunFrom(s, ActionsOf(s, ev), limit).Ok?)
            && (r.Ok? ==> r.value == EndsOf(RunFrom(s, ActionsOf(s, ev), limit).value, r.value.proc.watchesOut))
  {
    match ev {
      case Timer(now, ticks, images, codec) =>
        if ticks <= images && !Oversize(TickOf(s, now, codec), limit) {
          var t := TimerEvent(s, out, now, ticks, images, codec, limit);
        } else {
          TimerIsTick(s, now, ticks, images, codec, out, limit);
        }
      case Writable(attempts) => var t := WritableEvent(s, out, attempts, limit);
      case Readable(inputs, acks) => var t := ReadableEvent(s, out, inputs, acks, limit);
      case Arrival(binary) => var t := ArrivalEvent(s, out, binary, limit);
    }
  }

  lemma EventIsRun(s: System, out: bool, ev: Event, limit: nat)
    requires Inv(s) && Possible(s, ev)
    ensures var r := AfterEvent(EndsOf(s, out), ev, limit);
            && (r.Throw? ==> Explained(r.error, ev, limit))
            && (RunsDry(ev) ==> r == Throw(EndOfVideo))
            && (r.Ok? ==> Allowed(s, ActionsOf(s, ev), limit) && RunFrom(s, ActionsOf(s, ev), limit).Ok?)
            && (r.Ok? ==> var t := RunFrom(s, ActionsOf(s, ev), limit).value;
                          Inv(t) && r.value == EndsOf(t, r.value.proc.watchesOut))
  {
    EventRuns(s, out, ev, limit);
    if AfterEvent(EndsOf(s, out), ev, limit).Ok? {
      RunKeepsInv(s, ActionsOf(s, ev), limit);
    }
  }

  ghost function AfterEvents(e: Ends, evs: seq<Event>, limit: nat): Result<Ends>
    requires DecoderOk(e.rx)
    decreases |evs|
  {
    if evs == [] then Ok(e)
    else
      var r := AfterEvent(e, evs[0], limit);
      if r.Throw? then r else AfterEvents(r.value, evs[1..], limit)
  }

  /** Every event is possible when it comes. */
  ghost predicate AllPossible(s: System, evs: seq<Event>, limit: nat)
    decreases |evs|
  {
    evs == [] ||
    (Possible(s, evs[0]) &&
     (DecoderOk(s.rx) && Allowed(s, ActionsOf(s, evs[0]), limit) && RunFrom(s, ActionsOf(s, evs[0]), limit).Ok? ==>
        AllPossible(RunFrom(s, ActionsOf(s, evs[0]), limit).value, evs[1..], limit)))
  }

  ghost function Trace(s: System, evs: seq<Event>, limit: nat): seq<Action>
    decreases |evs|
  {
    if evs == [] then []
    else
      var actions := ActionsOf(s, evs[0]);
      if DecoderOk(s.rx) && Allowed(s, actions, limit) && RunFrom(s, actions, limit).Ok?
      then actions + Trace(RunFrom(s, actions, limit).value, evs[1..], limit)
      else actions
  }

  /** From a state of the composed system on, the two programs do together what one run of it does. */
  lemma {:induction false} EventsAreRun(s: System, out: bool, evs: seq<Event>, limit: nat)
    requires Inv(s) && AllPossible(s, evs, limit)
    ensures var r := AfterEvents(EndsOf(s, out), evs, limit);
            && (r.Throw? ==> exists i :: 0 <= i < |evs| && Explained(r.error, evs[i], limit))
            && (r.Ok? ==> Allowed(s, Trace(s, evs, limit), limit) && RunFrom(s, Trace(s, evs, limit), limit).Ok?)
            && (r.Ok? ==> var t := RunFrom(s, Trace(s, evs, limit), limit).value;
                          r.value == EndsOf(t, r.value.proc.watchesOut))
    decreases |evs|
  {
    if evs != [] {
      EventIsRun(s, out, evs[0], limit);
      var r := AfterEvent(EndsOf(s, out), evs[0], limit);
      if r.Ok? {
        var actions := ActionsOf(s, evs[0]);
        var t := RunFrom(s, actions, limit).value;
        EventsAreRun(t, r.value.proc.watchesOut, evs[1..], limit);
        var rest := AfterEvents(r.value, evs[1..], limit);
        if rest.Ok? {
          RunAppends(s, actions, Trace(t, evs[1..], limit), limit);
        } else {
          var i :| 0 <= i < |evs[1..]| && Explained(rest.error, evs[1..][i], limit);
          assert evs[i + 1] == evs[1..][i];
        }
      }
    }
  }

  lemma EventKeepsWatch(e: Ends, ev: Event, limit: nat)
    requires DecoderOk(e.rx) && Sending.Awake(e.proc) && AfterEvent(e, ev, limit).Ok?
    ensures Sending.Awake(AfterEvent(e, ev, limit).value.proc)
  {
    match ev {
      case Timer(now, ticks, images, codec) =>
        Sending.CallbackKeepsWatch(e.proc, Sending.FrameTimer(now, ticks, images, codec), limit);
      case Writable(attempts) => Sending.CallbackKeepsWatch(e.proc, Sending.SocketWritable(attempts), limit);
      case Readable(inputs, _) => Sending.CallbackKeepsWatch(e.proc, Sending.SocketReadable(inputs), limit);
      case Arrival(_) =>
    }
  }

  lemma {:induction false} EventsKeepWatch(e: Ends, evs: seq<Event>, limit: nat)
    requires DecoderOk(e.rx) && Sending.Awake(e.proc) && AfterEvents(e, evs, limit).Ok?
    ensures Sending.Awake(AfterEvents(e, evs, limit).value.proc)
    decreases |evs|
  {
    if evs != [] {
      EventKeepsWatch(e, evs[0], limit);
      EventsKeepWatch(AfterEvent(e, evs[0], limit).value, evs[1..], limit);
    }
  }

  /** Any sequence of callbacks, interleaved with datagrams arriving at the receiver, ends in a state
      that one run of the composed system reaches, with the same on the wire, so its guarantees hold of
      the two programs; on the way the sender never sleeps on queued datagrams; and only the end of the
      video or a frame of too many fragments raises an exception. */
  lemma ProgramsFollowRun(evs: seq<Event>, limit: nat)
    requires AllPossible(Transport.START, evs, limit)
    ensures var r := AfterEvents(Ends(Sending.START, INITIAL, {}, {}), evs, limit);
            && (r.Throw? ==> exists i :: 0 <= i < |evs| && Explained(r.error, evs[i], limit))
            && (r.Ok? ==>
                  && Run(Trace(Transport.START, evs, limit), limit)
                  && r.value == EndsOf(Reached(Trace(Transport.START, evs, limit), limit), r.value.proc.watchesOut)
                  && (r.value.proc.tx.sendBuf != [] ==> r.value.proc.watchesOut))
  {
    StartInv();
    EventsAreRun(Transport.START, true, evs, limit);
    if AfterEvents(Ends(Sending.START, INITIAL, {}, {}), evs, limit).Ok? {
      EventsKeepWatch(Ends(Sending.START, INITIAL, {}, {}), evs, limit);
    }
  }
}
