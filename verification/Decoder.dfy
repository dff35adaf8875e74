/** The receiver: buffers incomplete frames, dispatches in order, and skips ahead to key frames. */
module Decoding {
  import opened Wrappers
  import opened Protocol
  import opened Frames

  /** next: the frontier; buf: frames at or beyond it; queue: frames dispatched so far. */
  datatype DecoderState = DecoderState(next: nat, buf: map<nat, FrameState>, queue: seq<FrameState>)

  ghost predicate DecoderOk(s: DecoderState) {
    forall k :: k in s.buf ==> k >= s.next && s.buf[k].id == k && FrameOk(s.buf[k])
  }

  /** Pruning keeps exactly the frames at or beyond the frontier. */
  ghost function From(buf: map<nat, FrameState>, frontier: nat): map<nat, FrameState> {
    map k | k in buf && k >= frontier :: buf[k]
  }

  // ---------- adding a datagram ----------

  /** The frame a datagram belongs to is created on its first datagram. */
  ghost function Opened(s: DecoderState, d: Datagram): (r: Result<DecoderState>)
    requires DecoderOk(s) && d.frameId >= s.next
    ensures r.Ok? ==> DecoderOk(r.value) && d.frameId in r.value.buf
  {
    if d.frameId in s.buf then Ok(s)
    else
      var f := Created(d.frameId, d.frameType, d.fragCnt);
      if f.Throw? then Throw(f.error) else Ok(s.(buf := s.buf[d.frameId := f.value]))
  }

  /** Datagrams of frames before the frontier are dropped. */
  ghost function Added(s: DecoderState, d: Datagram): (r: Result<DecoderState>)
    requires DecoderOk(s)
    ensures r.Ok? ==> DecoderOk(r.value)
  {
    if d.frameId < s.next then Ok(s)
    else
      var t := Opened(s, d);
      if t.Throw? then t
      else
        var f := Inserted(t.value.buf[d.frameId], d);
        if f.Throw? then Throw(f.error) else Ok(t.value.(buf := t.value.buf[d.frameId := f.value]))
  }

  /** What adding a datagram does, also one that contradicts what was received before. Those of old
      frames are dropped. The first of a frame opens it, with its type and count, and must have a slot
      in it; later ones must agree with the frame. Only that frame changes. */
  lemma AddedExactly(s: DecoderState, d: Datagram)
    requires DecoderOk(s)
    ensures d.frameId < s.next ==> Added(s, d) == Ok(s)
    ensures d.frameId >= s.next && d.frameId in s.buf ==>
              var f := Inserted(s.buf[d.frameId], d);
              Added(s, d) == if f.Throw? then Throw(f.error) else Ok(s.(buf := s.buf[d.frameId := f.value]))
    ensures d.frameId >= s.next && d.frameId !in s.buf ==>
              && (d.fragCnt == 0 ==> Added(s, d) == Throw(ZeroFragments))
              && (0 < d.fragCnt <= d.fragId ==> Added(s, d) == Throw(IncompatibleDatagram))
              && (d.fragId < d.fragCnt ==>
                    && Added(s, d).Ok?
                    && var t := Added(s, d).value;
                       && d.frameId in t.buf && t == s.(buf := s.buf[d.frameId := t.buf[d.frameId]])
                       && var f := t.buf[d.frameId];
                          && f.id == d.frameId && f.frameType == d.frameType && |f.frags| == d.fragCnt
                          && f.nullFrags == d.fragCnt - 1 && f.frameSize == |d.payload|
                          && forall g :: 0 <= g < |f.frags| ==> f.frags[g] == if g == d.fragId then Some(d) else None)
  {
    CreatedExactly(d.frameId, d.frameType, d.fragCnt);
  }

  // ---------- finding and consuming the next frame ----------

  ghost predicate NextReady(s: DecoderState) {
    s.next in s.buf && Complete(s.buf[s.next])
  }

  ghost predicate CompleteKey(buf: map<nat, FrameState>, k: nat) {
    k in buf && buf[k].frameType == KEY && Complete(buf[k])
  }

  ghost predicate LatestCompleteKey(buf: map<nat, FrameState>, k: nat) {
    CompleteKey(buf, k) && forall j: nat :: CompleteKey(buf, j) ==> j <= k
  }

  ghost function CompleteKeys(buf: map<nat, FrameState>): set<nat> {
    set k | k in buf && CompleteKey(buf, k)
  }

  lemma MaxExists(ks: set<nat>) returns (m: nat)
    requires ks != {}
    ensures m in ks && forall k :: k in ks ==> k <= m
  {
    var some :| some in ks;
    m := some;
    if ks != {some} {
      var n := MaxExists(ks - {some});
      m := if n > some then n else some;
      assert forall k :: k in ks ==> k in ks - {some} || k == some;
    }
  }

  lemma LatestExists(buf: map<nat, FrameState>)
    requires exists k: nat :: CompleteKey(buf, k)
    ensures exists k: nat :: LatestCompleteKey(buf, k)
  {
    var j :| CompleteKey(buf, j);
    assert j in CompleteKeys(buf);
    var k := MaxExists(CompleteKeys(buf));
    forall i: nat | CompleteKey(buf, i)
      ensures i <= k
    {
      assert i in CompleteKeys(buf);
    }
    assert LatestCompleteKey(buf, k);
  }

  /** Whether a frame can be dispatched, after possibly skipping to the latest complete key frame. */
  ghost function Sought(s: DecoderState): (r: Option<DecoderState>)
    requires DecoderOk(s)
    ensures r.Some? <==> NextReady(s) || exists k: nat :: CompleteKey(s.buf, k)
    ensures r.Some? ==>
              var t := r.value;
              && DecoderOk(t) && NextReady(t) && t.queue == s.queue
              && t.next >= s.next && t.buf == From(s.buf, t.next)
              && (NextReady(s) ==> t.next == s.next)
              && (!NextReady(s) ==> LatestCompleteKey(s.buf, t.next) && t.next > s.next)
  {
    if NextReady(s) then
      assert s.buf == From(s.buf, s.next);
      Some(s)
    else if exists k: nat :: CompleteKey(s.buf, k) then
      LatestExists(s.buf);
      var k :| LatestCompleteKey(s.buf, k);
      Some(s.(next := k, buf := From(s.buf, k)))
    else None
  }

  lemma SoughtStays(s: DecoderState)
    requires DecoderOk(s) && NextReady(s)
    ensures Sought(s) == Some(s)
  {
  }

  lemma SoughtNothing(s: DecoderState)
    requires DecoderOk(s) && !NextReady(s) && forall k: nat :: !CompleteKey(s.buf, k)
    ensures Sought(s).None?
  {
  }

  /** Without a ready next frame, seeking skips to the latest complete key frame. */
  lemma SoughtSkips(s: DecoderState, k: nat)
    requires DecoderOk(s) && !NextReady(s) && LatestCompleteKey(s.buf, k)
    ensures k > s.next && Sought(s) == Some(DecoderState(k, From(s.buf, k), s.queue))
  {
    assert CompleteKey(s.buf, k);
  }

  ghost function Consumed(s: DecoderState): (r: DecoderState)
    requires DecoderOk(s) && NextReady(s)
    ensures DecoderOk(r) && r.buf.Keys < s.buf.Keys
  {
    var buf := From(s.buf, s.next + 1);
    assert s.next in s.buf.Keys && s.next !in buf.Keys;
    DecoderState(s.next + 1, buf, s.queue + [s.buf[s.next]])
  }

  /** Consuming takes exactly the next frame: it goes to the back of the queue, and all later frames stay. */
  lemma ConsumedExactly(s: DecoderState)
    requires DecoderOk(s) && NextReady(s)
    ensures var t := Consumed(s);
            && t.next == s.next + 1 && t.queue == s.queue + [s.buf[s.next]]
            && t.buf.Keys == s.buf.Keys - {s.next} && forall k :: k in t.buf ==> t.buf[k] == s.buf[k]
  {
  }

  ghost function Drained(s: DecoderState): (r: DecoderState)
    requires DecoderOk(s)
    ensures DecoderOk(r)
    ensures !NextReady(r) && forall k: nat :: !CompleteKey(r.buf, k)
    decreases s.buf.Keys
  {
    var t := Sought(s);
    if t.None? then s else Drained(Consumed(t.value))
  }

  /** One round of the receive loop. */
  ghost function Received(s: DecoderState, d: Datagram): (r: Result<DecoderState>)
    requires DecoderOk(s)
    ensures r.Ok? ==> DecoderOk(r.value)
  {
    var a := Added(s, d);
    if a.Throw? then a else Ok(Drained(a.value))
  }

  // ---------- the keys of an ordered map, in ascending order ----------

  ghost predicate Ascending(ks: seq<nat>, s: set<nat>) {
    && (forall i, j :: 0 <= i < j < |ks| ==> ks[i] < ks[j])
    && (forall k :: k in ks <==> k in s)
  }

  method AscendingKeys(s: set<nat>) returns (ks: seq<nat>)
    ensures Ascending(ks, s)
  {
    ks := [];
    var rest := s;
    while rest != {}
      invariant rest <= s
      invariant Ascending(ks, s - rest)
      invariant forall i, k :: 0 <= i < |ks| && k in rest ==> ks[i] < k
      decreases rest
    {
      ghost var m := MinExists(rest);
      var k :| k in rest && forall j :: j in rest ==> k <= j;
      ks := ks + [k];
      rest := rest - {k};
    }
  }

  /** Removing an ascending prefix up to the first key that stays removes all smaller keys. */
  lemma PrefixRemoved<V>(m: map<nat, V>, keys: seq<nat>, it: nat, frontier: nat)
    requires Ascending(keys, m.Keys) && it <= |keys|
    requires forall i :: 0 <= i < it ==> keys[i] < frontier
    requires it < |keys| ==> keys[it] >= frontier
    ensures m - (set i | 0 <= i < it :: keys[i]) == map k | k in m && k >= frontier :: m[k]
  {
    forall k | k in m
      ensures k in (set i | 0 <= i < it :: keys[i]) <==> k < frontier
    {
      assert k in keys;
      var i :| 0 <= i < |keys| && keys[i] == k;
      if i >= it {
        assert keys[i] >= keys[it];
      }
    }
  }

  lemma MinExists(ks: set<nat>) returns (m: nat)
    requires ks != {}
    ensures m in ks && forall k :: k in ks ==> m <= k
  {
    var some :| some in ks;
    m := some;
    if ks != {some} {
      var n := MinExists(ks - {some});
      m := if n < some then n else some;
      assert forall k :: k in ks ==> k in ks - {some} || k == some;
    }
  }

  lemma LatestAmong(buf: map<nat, FrameState>, keys: seq<nat>, i: nat)
    requires Ascending(keys, buf.Keys) && i < |keys| && CompleteKey(buf, keys[i])
    requires forall j :: i < j < |keys| ==> !CompleteKey(buf, keys[j])
    ensures LatestCompleteKey(buf, keys[i])
  {
    forall k: nat | CompleteKey(buf, k)
      ensures k <= keys[i]
    {
      assert k in keys;
    }
  }

  lemma NoneAmong(buf: map<nat, FrameState>, keys: seq<nat>)
    requires Ascending(keys, buf.Keys) && forall j :: 0 <= j < |keys| ==> !CompleteKey(buf, keys[j])
    ensures forall k: nat :: !CompleteKey(buf, k)
  {
    forall k: nat
      ensures !CompleteKey(buf, k)
    {
      assert k in buf ==> k in keys;
    }
  }

  // ---------- the decoder object ----------

  class Decoder {
    var nextFrame: nat
    var frameBuf: map<nat, Frame>
    var sharedQueue: seq<FrameState>

    ghost function Buffered(): map<nat, FrameState>
      reads this, frameBuf.Values
    {
      map k | k in frameBuf :: frameBuf[k].View()
    }

    ghost function State(): DecoderState
      reads this, frameBuf.Values
    {
      DecoderState(nextFrame, Buffered(), sharedQueue)
    }

    ghost predicate Valid()
      reads this, frameBuf.Values
      ensures Valid() ==> DecoderOk(State())
    {
      forall k :: k in frameBuf ==> k >= nextFrame && frameBuf[k].id == k && frameBuf[k].Valid()
    }

    constructor ()
      ensures Valid() && frameBuf == map[]
      ensures State() == DecoderState(0, map[], [])
    {
      nextFrame := 0;
      frameBuf := map[];
      sharedQueue := [];
    }

    twostate lemma OneFrameChanged(id: nat)
      requires id in frameBuf && frameBuf == old(frameBuf)[id := frameBuf[id]]
      requires forall k :: k in old(frameBuf) && k != id ==> old(allocated(frameBuf[k])) && unchanged(frameBuf[k])
      ensures Buffered() == old(Buffered())[id := frameBuf[id].View()]
    {
    }

    method AddDatagramCommon(d: Datagram) returns (r: Result<bool>)
      requires Valid()
      modifies `frameBuf
      ensures fresh(frameBuf.Values - old(frameBuf.Values))
      ensures Valid()
      ensures r == Ok(false) <==> d.frameId < nextFrame
      ensures r.Throw? ==> d.frameId >= nextFrame && Opened(old(State()), d) == Throw(r.error)
      ensures r == Ok(false) ==> State() == old(State())
      ensures r == Ok(true) ==> Opened(old(State()), d) == Ok(State())
    {
      if d.frameId < nextFrame {
        return Ok(false);
      }
      if d.frameId !in frameBuf {
        var f :- Frame.Create(d.frameId, d.frameType, d.fragCnt);
        frameBuf := frameBuf[d.frameId := f];
        OneFrameChanged(d.frameId);
      }
      r := Ok(true);
    }

    method AddDatagram(d: Datagram) returns (r: Result<()>)
      requires Valid()
      modifies this, frameBuf.Values
      ensures fresh(frameBuf.Values - old(frameBuf.Values))
      ensures r.Throw? ==> Added(old(State()), d) == Throw(r.error)
      ensures r.Ok? ==> Valid() && Added(old(State()), d) == Ok(State())
    {
      var kept :- AddDatagramCommon(d);
      if !kept {
        return Ok(());
      }
      var frame := frameBuf[d.frameId];
      assert frame.View() == State().buf[d.frameId];
      label inserting:
      r := frame.InsertFrag(d);
      OneFrameChanged@inserting(d.frameId);
    }

    /** The walk over the ordered map stops at the first frame that stays. */
    method CleanUpTo(frontier: nat)
      modifies `frameBuf
      ensures frameBuf == map k | k in old(frameBuf) && k >= frontier :: old(frameBuf)[k]
    {
      var keys := AscendingKeys(frameBuf.Keys);
      var it := 0;
      while it < |keys|
        invariant 0 <= it <= |keys|
        invariant forall i :: 0 <= i < it ==> keys[i] < frontier
        invariant frameBuf == old(frameBuf) - set i | 0 <= i < it :: keys[i]
      {
        if keys[it] >= frontier {
          break;
        }
        frameBuf := frameBuf - {keys[it]};
        it := it + 1;
      }
      PrefixRemoved(old(frameBuf), keys, it, frontier);
    }

    twostate lemma FramesPruned(frontier: nat)
      requires frameBuf == map k | k in old(frameBuf) && k >= frontier :: old(frameBuf)[k]
      requires forall k :: k in old(frameBuf) ==> unchanged(old(frameBuf)[k])
      ensures Buffered() == From(old(Buffered()), frontier)
      ensures frameBuf.Values <= old(frameBuf.Values)
    {
      assert forall k :: k in frameBuf ==> frameBuf[k] in old(frameBuf.Values);
    }

    method AdvanceNextFrame(n: nat)
      requires Valid()
      modifies `nextFrame, `frameBuf
      ensures Valid() && frameBuf.Values <= old(frameBuf.Values)
      ensures State() == DecoderState(old(nextFrame) + n, From(old(Buffered()), old(nextFrame) + n), sharedQueue)
    {
      nextFrame := nextFrame + n;
      CleanUpTo(nextFrame);
      FramesPruned(nextFrame);
    }

    /** Seeks backward from the latest frame for a complete key frame. */
    method SeekKeyFrame() returns (r: Option<nat>)
      requires Valid()
      ensures Valid() && State() == old(State())
      ensures r.None? ==> forall k: nat :: !CompleteKey(Buffered(), k)
      ensures r.Some? ==> LatestCompleteKey(Buffered(), r.value)
    {
      ghost var buf := Buffered();
      var keys := AscendingKeys(frameBuf.Keys);
      var i := |keys|;
      while i > 0
        invariant 0 <= i <= |keys|
        invariant forall j :: i <= j < |keys| ==> !CompleteKey(buf, keys[j])
      {
        i := i - 1;
        var frame := frameBuf[keys[i]];
        assert buf[keys[i]] == frame.View();
        if frame.frameType == KEY && frame.IsComplete() {
          LatestAmong(buf, keys, i);
          return Some(keys[i]);
        }
      }
      NoneAmong(buf, keys);
      r := None;
    }

    /** Whether the next frame can be dispatched; may first skip to a key frame ahead. */
    method NextFrameComplete() returns (ready: bool)
      requires Valid()
      modifies `nextFrame, `frameBuf
      ensures Valid() && frameBuf.Values <= old(frameBuf.Values)
      ensures ready <==> Sought(old(State())).Some?
      ensures State() == if ready then Sought(old(State())).value else old(State())
    {
      ghost var was := State();
      if nextFrame in frameBuf && frameBuf[nextFrame].IsComplete() {
        assert was.buf[nextFrame] == frameBuf[nextFrame].View();
        SoughtStays(was);
        return true;
      }
      assert !NextReady(was);
      var key := SeekKeyFrame();
      if key.None? {
        SoughtNothing(was);
        return false;
      }
      SoughtSkips(was, key.value);
      AdvanceNextFrame(key.value - nextFrame);
      ready := true;
    }

    /** Moves a frame's value into the queue shared with the worker. */
    method Dispatch(f: Frame)
      modifies `sharedQueue
      ensures sharedQueue == old(sharedQueue) + [f.View()]
      ensures State() == old(State()).(queue := sharedQueue)
    {
      sharedQueue := sharedQueue + [FrameState(f.id, f.frameType, f.frags, f.nullFrags, f.frameSize)];
    }

    /** Throws, changing nothing, unless the next frame is complete. */
    method ConsumeNextFrame() returns (r: Result<()>)
      requires Valid()
      modifies `nextFrame, `frameBuf, `sharedQueue
      ensures Valid() && frameBuf.Values <= old(frameBuf.Values)
      ensures r.Ok? <==> NextReady(old(State()))
      ensures r.Throw? ==> r.error == if old(nextFrame) in old(frameBuf) then IncompleteFrame else NoSuchFrame
      ensures State() == if r.Ok? then Consumed(old(State())) else old(State())
    {
      if nextFrame !in frameBuf {
        return Throw(NoSuchFrame);
      }
      var f := frameBuf[nextFrame];
      assert f.View() == Buffered()[nextFrame];
      if !f.IsComplete() {
        return Throw(IncompleteFrame);
      }
      Dispatch(f);
      AdvanceNextFrame(1);
      r := Ok(());
    }

    /** Dispatches as long as something can be dispatched; each round shrinks the buffer. */
    method Drain()
      requires Valid()
      modifies `nextFrame, `frameBuf, `sharedQueue
      ensures Valid() && frameBuf.Values <= old(frameBuf.Values)
      ensures State() == Drained(old(State()))
    {
      ghost var was := State();
      var ready := NextFrameComplete();
      while ready
        invariant Valid() && frameBuf.Values <= old(frameBuf.Values)
        invariant ready ==> NextReady(State()) && Drained(Consumed(State())) == Drained(was)
        invariant !ready ==> State() == Drained(was)
        decreases State().buf.Keys, ready
      {
        var consumed := ConsumeNextFrame();
        assert consumed.Ok?;
        ready := NextFrameComplete();
      }
    }
  }
}
