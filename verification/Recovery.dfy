/** What can still happen from any reachable state, and what the worker makes of it. */
module Recovery {
  import opened Wrappers
  import opened Wire
  import opened Protocol
  import opened Packetizer
  import opened Frames
  import opened Confluence
  import opened Encoding
  import opened Transport
  import opened TransportSteps
  import opened Guarantees

  // ---------- from every reachable state the receiver can catch up ----------

  ghost predicate OnWire(s: System, n: SeqNum) {
    exists d :: d in s.net && d.Num() == n
  }

  /** Sending until the queue is empty puts everything queued on the wire. */
  lemma {:induction false} SendAll(s: System, limit: nat) returns (actions: seq<Action>, t: System)
    requires Inv(s)
    ensures Allowed(s, actions, limit) && RunFrom(s, actions, limit) == Ok(t) && Inv(t)
    ensures t.produced == s.produced && t.rx == s.rx && t.got == s.got && t.tx.sendBuf == []
    ensures s.net <= t.net && forall i :: 0 <= i < |s.tx.sendBuf| ==> OnWire(t, s.tx.sendBuf[i].Num())
    decreases |s.tx.sendBuf|
  {
    if s.tx.sendBuf == [] {
      return [], s;
    }
    var u := SendStep(s, s.clock, true, limit);
    var rest;
    rest, t := SendAll(u, limit);
    actions := [Send(s.clock, true)] + rest;
    RunCons(s, Send(s.clock, true), u, rest, limit);
    forall i | 0 <= i < |s.tx.sendBuf|
      ensures OnWire(t, s.tx.sendBuf[i].Num())
    {
      if i == 0 {
        var d := Transmitted(s.tx.sendBuf[0].(sendTs := s.clock));
        assert d in t.net && d.Num() == s.tx.sendBuf[0].Num();
      } else {
        assert s.tx.sendBuf[i] == u.tx.sendBuf[i - 1];
      }
    }
  }

  /** Delivering the first c fragments of frame f, when they are all on the wire. */
  lemma {:induction false} DeliverFrame(s: System, f: nat, c: nat, limit: nat) returns (actions: seq<Action>, t: System)
    requires Inv(s) && forall g :: 0 <= g < c ==> OnWire(s, SeqNum(f, g))
    ensures Allowed(s, actions, limit) && RunFrom(s, actions, limit) == Ok(t) && Inv(t)
    ensures t.produced == s.produced && s.got <= t.got && forall g :: 0 <= g < c ==> SeqNum(f, g) in t.got
    decreases c
  {
    if c == 0 {
      return [], s;
    }
    assert OnWire(s, SeqNum(f, c - 1));
    var d :| d in s.net && d.Num() == SeqNum(f, c - 1);
    var u := DeliverStep(s, d, limit);
    forall g | 0 <= g < c - 1
      ensures OnWire(u, SeqNum(f, g))
    {
      assert OnWire(s, SeqNum(f, g));
    }
    var rest;
    rest, t := DeliverFrame(u, f, c - 1, limit);
    actions := [Deliver(d)] + rest;
    RunCons(s, Deliver(d), u, rest, limit);
  }

  /** When the last frame produced is a key frame received in full, it was dispatched last. */
  lemma LastKeyDispatched(s: System)
    requires Inv(s) && s.produced != []
    requires KeyIn(s.produced, |s.produced| - 1) && CompleteIn(s.produced, s.got, |s.produced| - 1)
    ensures s.rx.next == |s.produced|
    ensures s.rx.queue != [] && s.rx.queue[|s.rx.queue| - 1].id == |s.produced| - 1
  {
    KeyFrameRecovers(s.produced, s.got, |s.produced| - 1);
    assert Chain(s.produced, s.got, s.rx.next);
  }

  lemma TailOnWire(s: System, front: seq<Datagram>, ds: seq<Datagram>, f: nat)
    requires forall i :: 0 <= i < |front + ds| ==> OnWire(s, (front + ds)[i].Num())
    requires forall g :: 0 <= g < |ds| ==> ds[g].Num() == SeqNum(f, g)
    ensures forall g :: 0 <= g < |ds| ==> OnWire(s, SeqNum(f, g))
  {
    forall g | 0 <= g < |ds|
      ensures OnWire(s, SeqNum(f, g))
    {
      assert (front + ds)[|front| + g] == ds[g];
    }
  }

  /** Producing a key frame and sending all that is queued puts all its fragments on the wire. */
  lemma TickAndSend(s: System, now: uint64, bytes: seq<byte>, limit: nat) returns (actions: seq<Action>, t: System)
    requires Inv(s) && Enabled(s, Tick(now, bytes, true)) && !Oversize(Tick(now, bytes, true), limit)
    ensures Allowed(s, actions, limit) && RunFrom(s, actions, limit) == Ok(t) && Inv(t)
    ensures t.produced == s.produced + [NewFrame(true, bytes, limit)]
    ensures forall g :: 0 <= g < FragCnt(|bytes|, limit) ==> OnWire(t, SeqNum(|s.produced|, g))
  {
    var u := TickStep(s, now, bytes, true, limit);
    var ds := Packets(s.tx.frameId, KEY, bytes, limit).value;
    var sends;
    sends, t := SendAll(u, limit);
    TailOnWire(t, Prepared(s.tx, now).sendBuf, ds, |s.produced|);
    RunCons(s, Tick(now, bytes, true), u, sends, limit);
    actions := [Tick(now, bytes, true)] + sends;
  }

  /** Producing a key frame, sending all that is queued and delivering it: nothing then lies between
      what was produced and what was dispatched. */
  lemma CatchUp(s: System, now: uint64, bytes: seq<byte>, limit: nat) returns (more: seq<Action>, t: System)
    requires Inv(s) && Enabled(s, Tick(now, bytes, true)) && !Oversize(Tick(now, bytes, true), limit)
    ensures Allowed(s, more, limit) && RunFrom(s, more, limit) == Ok(t)
    ensures t.produced == s.produced + [NewFrame(true, bytes, limit)] && t.rx.next == |t.produced| == t.tx.frameId
    ensures t.rx.queue != [] && t.rx.queue[|t.rx.queue| - 1].id == |s.produced|
  {
    var first, u := TickAndSend(s, now, bytes, limit);
    var second;
    second, t := DeliverFrame(u, |s.produced|, FragCnt(|bytes|, limit), limit);
    RunAppends(s, first, second, limit);
    more := first + second;
    assert t.produced[|s.produced|] == NewFrame(true, bytes, limit);
    LastKeyDispatched(t);
  }

  lemma ReachedCatchesUp(actions: seq<Action>, limit: nat, now: uint64, bytes: seq<byte>)
      returns (more: seq<Action>, t: System)
    requires Run(actions, limit) && Enabled(Reached(actions, limit), Tick(now, bytes, true))
    requires !Oversize(Tick(now, bytes, true), limit)
    ensures var s := Reached(actions, limit);
            && Allowed(s, more, limit) && RunFrom(s, more, limit) == Ok(t)
            && t.produced == s.produced + [NewFrame(true, bytes, limit)] && t.rx.next == |t.produced| == t.tx.frameId
            && t.rx.queue != [] && t.rx.queue[|t.rx.queue| - 1].id == |s.produced|
  {
    ReachedInv(actions, limit);
    more, t := CatchUp(Reached(actions, limit), now, bytes, limit);
  }

  /** Never stuck: every run, whatever it lost, can go on so that a next key frame is dispatched and the
      receiver expects exactly the frame the sender produces next. */
  lemma NeverStuck(actions: seq<Action>, limit: nat, now: uint64, bytes: seq<byte>) returns (more: seq<Action>)
    requires Run(actions, limit) && Enabled(Reached(actions, limit), Tick(now, bytes, true))
    requires !Oversize(Tick(now, bytes, true), limit)
    ensures Run(actions + more, limit)
    ensures var s, t := Reached(actions, limit), Reached(actions + more, limit);
            && t.produced == s.produced + [NewFrame(true, bytes, limit)]
            && t.rx.next == |t.produced| == t.tx.frameId
            && t.rx.queue != [] && t.rx.queue[|t.rx.queue| - 1].id == |s.produced|
  {
    var t;
    more, t := ReachedCatchesUp(actions, limit, now, bytes);
    RunExtends(actions, more, limit);
  }

  // ---------- the worker's part ----------

  /** The values of all results, or the first exception. */
  ghost function InSequence<T>(rs: seq<Result<T>>): Result<seq<T>> {
    if rs == [] then Ok([])
    else
      var front, last := InSequence(rs[..|rs| - 1]), rs[|rs| - 1];
      if front.Throw? then front
      else if last.Throw? then Throw(last.error)
      else Ok(front.value + [last.value])
  }

  ghost predicate FramesOk(frames: seq<FrameState>) {
    forall i :: 0 <= i < |frames| ==> FrameOk(frames[i])
  }

  ghost function DecodedEach(frames: seq<FrameState>): (rs: seq<Result<seq<byte>>>)
    requires FramesOk(frames)
    ensures |rs| == |frames| && forall i :: 0 <= i < |rs| ==> rs[i] == Decoded(frames[i])
  {
    seq(|frames|, i requires 0 <= i < |frames| && FrameOk(frames[i]) => Decoded(frames[i]))
  }

  /** What the worker hands to the codec for a sequence of frames, up to the first it cannot decode. */
  ghost function DecodedAll(frames: seq<FrameState>): Result<seq<seq<byte>>>
    requires FramesOk(frames)
  {
    InSequence(DecodedEach(frames))
  }

  /** A dispatched frame is decoded to the bytes the encoder produced for its id, or refused exactly
      when these are 1 000 000 bytes or more. */
  lemma DispatchedIsDecoded(actions: seq<Action>, limit: nat, i: nat)
    requires Run(actions, limit) && i < |Reached(actions, limit).rx.queue|
    ensures var s := Reached(actions, limit);
            var fr := s.rx.queue[i];
            && FrameOk(fr) && fr.id < |s.produced| && fr.frameSize == |s.produced[fr.id].bytes|
            && Decoded(fr) == if |s.produced[fr.id].bytes| >= 1_000_000
                              then Throw(DecodeBufferFull) else Ok(s.produced[fr.id].bytes)
  {
    EndToEnd(actions, limit, i);
    DecodedExactly(Reached(actions, limit).rx.queue[i]);
    SizeIsContentLength(Reached(actions, limit).rx.queue[i]);
  }

  ghost predicate TooBig(bytes: seq<byte>) {
    |bytes| >= 1_000_000
  }

  ghost predicate AnyTooBig(contents: seq<seq<byte>>) {
    exists i :: 0 <= i < |contents| && TooBig(contents[i])
  }

  lemma AnyTooBigSnoc(contents: seq<seq<byte>>)
    requires contents != []
    ensures var n := |contents| - 1;
            AnyTooBig(contents) <==> AnyTooBig(contents[..n]) || TooBig(contents[n])
  {
    var front := contents[..|contents| - 1];
    if i :| 0 <= i < |front| && TooBig(front[i]) {
      assert TooBig(contents[i]);
    }
    if i :| 0 <= i < |contents| && TooBig(contents[i]) {
      assert i < |front| ==> TooBig(front[i]);
    }
  }

  ghost function Fitting(bytes: seq<byte>): Result<seq<byte>> {
    if TooBig(bytes) then Throw(DecodeBufferFull) else Ok(bytes)
  }

  lemma {:induction false} FittingInOrder(rs: seq<Result<seq<byte>>>, contents: seq<seq<byte>>)
    requires |rs| == |contents| && forall i :: 0 <= i < |rs| ==> rs[i] == Fitting(contents[i])
    ensures InSequence(rs) == if AnyTooBig(contents) then Throw(DecodeBufferFull) else Ok(contents)
  {
    if rs != [] {
      var n := |rs| - 1;
      FittingInOrder(rs[..n], contents[..n]);
      AnyTooBigSnoc(contents);
      assert contents == contents[..n] + [contents[n]];
    }
  }

  /** The bytes that the encoder produced for the first k frames dispatched. */
  ghost function Sources(s: System, k: nat): seq<seq<byte>>
    requires k <= |s.rx.queue| && forall i :: 0 <= i < k ==> s.rx.queue[i].id < |s.produced|
  {
    seq(k, i requires 0 <= i < k => s.produced[s.rx.queue[i].id].bytes)
  }

  /** Over every run, the worker that takes the first k dispatched frames decodes them to exactly the
      bytes the encoder produced, in order; it throws exactly when one of them has 1 000 000 bytes or
      more, and never because a frame is incomplete. */
  lemma WorkerOverRuns(actions: seq<Action>, limit: nat, k: nat)
    requires Run(actions, limit) && k <= |Reached(actions, limit).rx.queue|
    ensures var s := Reached(actions, limit);
            && FramesOk(s.rx.queue[..k]) && (forall i :: 0 <= i < k ==> s.rx.queue[i].id < |s.produced|)
            && DecodedAll(s.rx.queue[..k]) ==
               if AnyTooBig(Sources(s, k)) then Throw(DecodeBufferFull) else Ok(Sources(s, k))
  {
    var s := Reached(actions, limit);
    var frames := s.rx.queue[..k];
    forall i | 0 <= i < k
      ensures FrameOk(frames[i]) && s.rx.queue[i].id < |s.produced|
      ensures Decoded(frames[i]) == Fitting(s.produced[s.rx.queue[i].id].bytes)
    {
      DispatchedIsDecoded(actions, limit, i);
    }
    FittingInOrder(DecodedEach(frames), Sources(s, k));
  }

  /** A frame of exactly 1 000 000 bytes: the transport takes it, in 687 fragments at the default MTU,
      and some run dispatches it, but the worker refuses it. */
  lemma MillionByteFrame(bytes: seq<byte>) returns (actions: seq<Action>)
    requires |bytes| == 1_000_000
    ensures PayloadLimit(1500) == Ok(1455) && |Fragments(bytes, 1455)| == 687
    ensures Run(actions, 1455)
    ensures var s := Reached(actions, 1455);
            && |s.produced| == 1 && s.produced[0].bytes == bytes && s.rx.next == 1
            && s.rx.queue != [] && FrameOk(s.rx.queue[|s.rx.queue| - 1])
            && Decoded(s.rx.queue[|s.rx.queue| - 1]) == Throw(DecodeBufferFull)
  {
    actions := NeverStuck([], 1455, 0, bytes);
    assert [] + actions == actions;
    DispatchedIsDecoded(actions, 1455, |Reached(actions, 1455).rx.queue| - 1);
  }
}
