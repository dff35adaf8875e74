/** What the receiver's incremental, pruning algorithm computes from everything ever received. */
module Confluence {
  import opened Wire
  import opened Protocol
  import opened Frames
  import opened Decoding
  import Packetizer

  /** The frames behind the datagrams; a frame's id is its index. */
  datatype FrameInfo = FrameInfo(frameType: uint8, bytes: seq<byte>, payloads: seq<seq<byte>>)
  type Catalog = seq<FrameInfo>

  ghost predicate CatalogOk(cat: Catalog) {
    forall f :: 0 <= f < |cat| ==>
      0 < |cat[f].payloads| < 0x1_0000 && Packetizer.Concat(cat[f].payloads) == cat[f].bytes
  }

  /** A datagram consistent with the catalog; its timestamps are free. */
  ghost predicate Agrees(cat: Catalog, d: Datagram) {
    && d.frameId < |cat|
    && var info := cat[d.frameId];
       && d.frameType == info.frameType && d.fragCnt == |info.payloads|
       && d.fragId < |info.payloads| && d.payload == info.payloads[d.fragId]
  }

  // ---------- the frontier as a function of the set received ----------

  ghost predicate CompleteIn(cat: Catalog, got: set<SeqNum>, f: nat) {
    f < |cat| && forall g :: 0 <= g < |cat[f].payloads| ==> SeqNum(f, g) in got
  }

  ghost predicate KeyIn(cat: Catalog, f: nat) {
    f < |cat| && cat[f].frameType == KEY
  }

  /** One beyond the largest complete key frame below n, or 0 if there is none. */
  ghost function Restart(cat: Catalog, got: set<SeqNum>, n: nat): (r: nat)
    ensures r <= n
    ensures r > 0 ==> KeyIn(cat, r - 1) && CompleteIn(cat, got, r - 1)
    ensures forall k: nat :: r <= k < n ==> !(KeyIn(cat, k) && CompleteIn(cat, got, k))
  {
    if n == 0 then 0
    else if KeyIn(cat, n - 1) && CompleteIn(cat, got, n - 1) then n
    else Restart(cat, got, n - 1)
  }

  /** The least id from n on that is not complete. */
  ghost function FirstGap(cat: Catalog, got: set<SeqNum>, n: nat): (r: nat)
    ensures n <= r && !CompleteIn(cat, got, r)
    ensures forall f: nat :: n <= f < r ==> CompleteIn(cat, got, f)
    decreases |cat| - n
  {
    if CompleteIn(cat, got, n) then FirstGap(cat, got, n + 1) else n
  }

  ghost function Frontier(cat: Catalog, got: set<SeqNum>): nat {
    FirstGap(cat, got, Restart(cat, got, |cat|))
  }

  /** Ids reachable from 0, or from just beyond a complete key frame, over complete frames. */
  ghost predicate Chain(cat: Catalog, got: set<SeqNum>, n: nat) {
    n == 0 || (CompleteIn(cat, got, n - 1) && (KeyIn(cat, n - 1) || Chain(cat, got, n - 1)))
  }

  lemma {:induction false} ChainBelowFrontier(cat: Catalog, got: set<SeqNum>, n: nat)
    requires Chain(cat, got, n)
    ensures n <= Frontier(cat, got)
    ensures forall f: nat :: Restart(cat, got, |cat|) <= f < n ==> CompleteIn(cat, got, f)
  {
    if n > 0 && !KeyIn(cat, n - 1) {
      ChainBelowFrontier(cat, got, n - 1);
    }
  }

  lemma {:induction false} RunIsChain(cat: Catalog, got: set<SeqNum>, m: nat, n: nat)
    requires m <= n && (m == 0 || (KeyIn(cat, m - 1) && CompleteIn(cat, got, m - 1)))
    requires forall f: nat :: m <= f < n ==> CompleteIn(cat, got, f)
    ensures Chain(cat, got, n)
    decreases n
  {
    if m < n {
      RunIsChain(cat, got, m, n - 1);
    }
  }

  /** The frontier is the largest id the chain reaches. */
  lemma FrontierIsLargestChain(cat: Catalog, got: set<SeqNum>, n: nat)
    ensures Chain(cat, got, Frontier(cat, got))
    ensures Chain(cat, got, n) ==> n <= Frontier(cat, got)
  {
    RunIsChain(cat, got, Restart(cat, got, |cat|), Frontier(cat, got));
    if Chain(cat, got, n) {
      ChainBelowFrontier(cat, got, n);
    }
  }

  ghost predicate Settled(cat: Catalog, got: set<SeqNum>, n: nat) {
    && Chain(cat, got, n)
    && !CompleteIn(cat, got, n)
    && forall k: nat :: KeyIn(cat, k) && CompleteIn(cat, got, k) ==> k < n
  }

  lemma SettledIsFrontier(cat: Catalog, got: set<SeqNum>, n: nat)
    ensures Settled(cat, got, n) <==> n == Frontier(cat, got)
  {
    FrontierIsLargestChain(cat, got, n);
    if Settled(cat, got, n) {
      ChainBelowFrontier(cat, got, n);
    }
  }

  lemma {:induction false} ChainGrows(cat: Catalog, got: set<SeqNum>, more: set<SeqNum>, n: nat)
    requires got <= more && Chain(cat, got, n)
    ensures Chain(cat, more, n)
  {
    if n > 0 && Chain(cat, got, n - 1) {
      ChainGrows(cat, got, more, n - 1);
    }
  }

  /** Receiving more never moves the frontier back. */
  lemma FrontierGrows(cat: Catalog, got: set<SeqNum>, more: set<SeqNum>)
    requires got <= more
    ensures Frontier(cat, got) <= Frontier(cat, more)
  {
    FrontierIsLargestChain(cat, got, 0);
    ChainGrows(cat, got, more, Frontier(cat, got));
    ChainBelowFrontier(cat, more, Frontier(cat, got));
  }

  /** A key frame received in full is behind the frontier, whatever was lost before it. */
  lemma KeyFrameRecovers(cat: Catalog, got: set<SeqNum>, k: nat)
    requires KeyIn(cat, k) && CompleteIn(cat, got, k)
    ensures Frontier(cat, got) > k
  {
    SettledIsFrontier(cat, got, Frontier(cat, got));
  }

  // ---------- the buffer against the set received ----------

  ghost predicate FrameMatches(cat: Catalog, got: set<SeqNum>, f: nat, fr: FrameState) {
    && f < |cat|
    && FrameOk(fr) && fr.id == f && fr.frameType == cat[f].frameType && |fr.frags| == |cat[f].payloads|
    && (forall g :: 0 <= g < |fr.frags| ==> (fr.frags[g].Some? <==> SeqNum(f, g) in got))
    && (forall g :: 0 <= g < |fr.frags| && fr.frags[g].Some? ==>
          fr.frags[g].value.payload == cat[f].payloads[g])
  }

  ghost predicate AnyOf(got: set<SeqNum>, f: nat) {
    exists g: nat :: SeqNum(f, g) in got
  }

  /** The buffer holds exactly the received fragments of frames at or beyond the frontier. */
  ghost predicate BufMatches(cat: Catalog, got: set<SeqNum>, s: DecoderState) {
    && (forall f: nat :: f in s.buf <==> f >= s.next && AnyOf(got, f))
    && (forall f: nat :: f in s.buf ==> FrameMatches(cat, got, f, s.buf[f]))
  }

  lemma MatchedComplete(cat: Catalog, got: set<SeqNum>, f: nat, fr: FrameState)
    requires FrameMatches(cat, got, f, fr)
    ensures Complete(fr) <==> CompleteIn(cat, got, f)
    ensures Complete(fr) ==> (forall g :: 0 <= g < |fr.frags| ==> fr.frags[g].Some?) && Payloads(fr) == cat[f].payloads
  {
    CompleteMeansFilled(fr);
  }

  lemma CompleteIsBuffered(cat: Catalog, got: set<SeqNum>, s: DecoderState, f: nat)
    requires CatalogOk(cat) && BufMatches(cat, got, s) && f >= s.next
    ensures CompleteIn(cat, got, f) <==> f in s.buf && Complete(s.buf[f])
    ensures KeyIn(cat, f) && CompleteIn(cat, got, f) <==> CompleteKey(s.buf, f)
  {
    if CompleteIn(cat, got, f) {
      assert SeqNum(f, 0) in got;
    }
    if f in s.buf {
      MatchedComplete(cat, got, f, s.buf[f]);
    }
  }

  /** Filling one slot of a matching frame. */
  lemma InsertMatches(cat: Catalog, got: set<SeqNum>, fr: FrameState, d: Datagram)
    requires Agrees(cat, d) && FrameMatches(cat, got, d.frameId, fr)
    ensures Inserted(fr, d).Ok? && FrameMatches(cat, got + {d.Num()}, d.frameId, Inserted(fr, d).value)
  {
  }

  lemma OtherFrameMatches(cat: Catalog, got: set<SeqNum>, f: nat, fr: FrameState, n: SeqNum)
    requires FrameMatches(cat, got, f, fr) && n.frameId != f
    ensures FrameMatches(cat, got + {n}, f, fr)
  {
  }

  lemma AnyOfGrows(got: set<SeqNum>, n: SeqNum)
    ensures forall f: nat :: AnyOf(got + {n}, f) <==> AnyOf(got, f) || f == n.frameId
  {
    var more := got + {n};
    forall f: nat
      ensures AnyOf(more, f) <==> AnyOf(got, f) || f == n.frameId
    {
      if AnyOf(got, f) {
        var g: nat :| SeqNum(f, g) in got;
        assert SeqNum(f, g) in more;
      }
      assert SeqNum(n.frameId, n.fragId) in more;
    }
  }

  /** The frame a consistent datagram is inserted into matches, whether it was there or just created. */
  lemma OpenedMatches(cat: Catalog, got: set<SeqNum>, s: DecoderState, d: Datagram)
    requires CatalogOk(cat) && DecoderOk(s) && BufMatches(cat, got, s) && Agrees(cat, d) && d.frameId >= s.next
    ensures Opened(s, d).Ok? && FrameMatches(cat, got, d.frameId, Opened(s, d).value.buf[d.frameId])
  {
    if d.frameId !in s.buf {
      assert !AnyOf(got, d.frameId);
    }
  }

  /** What adding a consistent datagram leaves in the buffer. */
  lemma AddedShape(cat: Catalog, got: set<SeqNum>, s: DecoderState, d: Datagram)
    requires CatalogOk(cat) && DecoderOk(s) && BufMatches(cat, got, s) && Agrees(cat, d) && d.frameId >= s.next
    ensures Added(s, d).Ok?
    ensures var t := Added(s, d).value;
            && t.next == s.next && t.queue == s.queue && t.buf.Keys == s.buf.Keys + {d.frameId as nat}
            && FrameMatches(cat, got + {d.Num()}, d.frameId, t.buf[d.frameId])
            && (forall f :: f in s.buf && f != d.frameId ==> t.buf[f] == s.buf[f])
  {
    OpenedMatches(cat, got, s, d);
    InsertMatches(cat, got, Opened(s, d).value.buf[d.frameId], d);
  }

  /** A consistent datagram never throws, and adding it is adding its number to the set. */
  lemma AddKeepsMatch(cat: Catalog, got: set<SeqNum>, s: DecoderState, d: Datagram)
    requires CatalogOk(cat) && DecoderOk(s) && BufMatches(cat, got, s) && Agrees(cat, d)
    ensures Added(s, d).Ok?
    ensures var t := Added(s, d).value;
            t.next == s.next && t.queue == s.queue && BufMatches(cat, got + {d.Num()}, t)
  {
    AnyOfGrows(got, d.Num());
    if d.frameId >= s.next {
      AddedShape(cat, got, s, d);
    }
    forall f: nat | f in s.buf && f != d.frameId
      ensures FrameMatches(cat, got + {d.Num()}, f, s.buf[f])
    {
      OtherFrameMatches(cat, got, f, s.buf[f], d.Num());
    }
  }

  // ---------- dispatching ----------

  /** The dispatched frames decode in order: the first is frame 0 or a key frame, and each later one
      is a key frame or the direct successor of the one before; all carry the catalog's bytes. */
  ghost predicate QueueOk(cat: Catalog, queue: seq<FrameState>) {
    forall i :: 0 <= i < |queue| ==> DispatchOk(cat, queue, i)
  }

  ghost predicate DispatchOk(cat: Catalog, queue: seq<FrameState>, i: nat)
    requires i < |queue|
  {
    var fr := queue[i];
    && FrameOk(fr) && Complete(fr)
    && fr.id < |cat| && fr.frameType == cat[fr.id].frameType
    && (forall g :: 0 <= g < |fr.frags| ==> fr.frags[g].Some?)
    && Content(fr) == cat[fr.id].bytes
    && (var expected := if i == 0 then 0 else queue[i - 1].id + 1;
        fr.id == expected || (fr.id > expected && fr.frameType == KEY))
  }

  ghost predicate QueueEndsAt(queue: seq<FrameState>, next: nat) {
    next == if queue == [] then 0 else queue[|queue| - 1].id + 1
  }

  /** What holds between any two operations of the receive loop. */
  ghost predicate Tracks(cat: Catalog, got: set<SeqNum>, s: DecoderState) {
    && DecoderOk(s) && BufMatches(cat, got, s) && Chain(cat, got, s.next)
    && QueueOk(cat, s.queue) && QueueEndsAt(s.queue, s.next)
  }

  lemma PruneKeepsMatch(cat: Catalog, got: set<SeqNum>, s: DecoderState, n: nat, queue: seq<FrameState>)
    requires DecoderOk(s) && BufMatches(cat, got, s) && n >= s.next
    ensures var t := DecoderState(n, From(s.buf, n), queue);
            DecoderOk(t) && BufMatches(cat, got, t)
  {
  }

  lemma DispatchExtends(cat: Catalog, queue: seq<FrameState>, fr: FrameState)
    requires QueueOk(cat, queue) && DispatchOk(cat, queue + [fr], |queue|)
    ensures QueueOk(cat, queue + [fr])
  {
    forall i | 0 <= i < |queue + [fr]|
      ensures DispatchOk(cat, queue + [fr], i)
    {
      if i < |queue| {
        assert DispatchOk(cat, queue, i);
      }
    }
  }

  /** A complete frame that is next, or a later key frame, extends the dispatched chain. */
  lemma QueueGrows(cat: Catalog, got: set<SeqNum>, queue: seq<FrameState>, next: nat, k: nat, fr: FrameState)
    requires CatalogOk(cat) && QueueOk(cat, queue) && QueueEndsAt(queue, next)
    requires FrameMatches(cat, got, k, fr) && Complete(fr)
    requires k == next || (k > next && fr.frameType == KEY)
    ensures QueueOk(cat, queue + [fr]) && QueueEndsAt(queue + [fr], k + 1)
  {
    MatchedComplete(cat, got, k, fr);
    assert Content(fr) == cat[k].bytes;
    DispatchExtends(cat, queue, fr);
  }

  /** Where seeking may end: at a complete frame that is next, or at a key frame ahead of it. */
  ghost predicate Skipped(s: DecoderState, t: DecoderState) {
    && t.next >= s.next && t.queue == s.queue && t.buf == From(s.buf, t.next)
    && NextReady(t) && (t.next == s.next || t.buf[t.next].frameType == KEY)
  }

  lemma SoughtSkipped(s: DecoderState)
    requires DecoderOk(s) && Sought(s).Some?
    ensures Skipped(s, Sought(s).value)
  {
    var t := Sought(s).value;
    assert t.buf[t.next] == s.buf[t.next];
  }

  lemma ConsumedShape(s: DecoderState, t: DecoderState)
    requires DecoderOk(s) && DecoderOk(t) && Skipped(s, t)
    ensures Consumed(t) == DecoderState(t.next + 1, From(s.buf, t.next + 1), s.queue + [s.buf[t.next]])
  {
    assert From(t.buf, t.next + 1) == From(s.buf, t.next + 1);
  }

  /** Dispatching the frame sought and pruning up to behind it. */
  lemma DispatchKeepsTrack(cat: Catalog, got: set<SeqNum>, s: DecoderState, t: DecoderState)
    requires CatalogOk(cat) && Tracks(cat, got, s) && DecoderOk(t) && Skipped(s, t)
    ensures Tracks(cat, got, Consumed(t))
  {
    var k, u := t.next, Consumed(t);
    ConsumedShape(s, t);
    assert Chain(cat, got, u.next) by {
      MatchedComplete(cat, got, k, s.buf[k]);
    }
    QueueGrows(cat, got, s.queue, s.next, k, s.buf[k]);
    PruneKeepsMatch(cat, got, s, k + 1, u.queue);
  }

  /** One round of the drain loop: seek, then consume. */
  lemma RoundKeepsTrack(cat: Catalog, got: set<SeqNum>, s: DecoderState)
    requires CatalogOk(cat) && Tracks(cat, got, s) && Sought(s).Some?
    ensures Tracks(cat, got, Consumed(Sought(s).value))
  {
    SoughtSkipped(s);
    DispatchKeepsTrack(cat, got, s, Sought(s).value);
  }

  lemma {:induction false} DrainSettles(cat: Catalog, got: set<SeqNum>, s: DecoderState)
    requires CatalogOk(cat) && Tracks(cat, got, s)
    ensures Tracks(cat, got, Drained(s)) && Drained(s).next == Frontier(cat, got)
    ensures s.queue <= Drained(s).queue
    decreases s.buf.Keys
  {
    if Sought(s).Some? {
      RoundKeepsTrack(cat, got, s);
      DrainSettles(cat, got, Consumed(Sought(s).value));
    } else {
      forall k: nat | KeyIn(cat, k) && CompleteIn(cat, got, k)
        ensures k < s.next
      {
        if k >= s.next {
          CompleteIsBuffered(cat, got, s, k);
        }
      }
      CompleteIsBuffered(cat, got, s, s.next);
      SettledIsFrontier(cat, got, s.next);
    }
  }

  /** The state between rounds of the receive loop. */
  ghost predicate ReceiverInv(cat: Catalog, got: set<SeqNum>, s: DecoderState) {
    Tracks(cat, got, s) && s.next == Frontier(cat, got)
  }

  lemma ReceiveKeepsInv(cat: Catalog, got: set<SeqNum>, s: DecoderState, d: Datagram)
    requires CatalogOk(cat) && ReceiverInv(cat, got, s) && Agrees(cat, d)
    ensures Received(s, d).Ok? && ReceiverInv(cat, got + {d.Num()}, Received(s, d).value)
    ensures s.queue <= Received(s, d).value.queue
  {
    AddKeepsMatch(cat, got, s, d);
    ChainGrows(cat, got, got + {d.Num()}, s.next);
    DrainSettles(cat, got + {d.Num()}, Added(s, d).value);
  }

  // ---------- the start of a run ----------

  const INITIAL := DecoderState(0, map[], [])

  lemma InitialInv(cat: Catalog)
    requires CatalogOk(cat)
    ensures ReceiverInv(cat, {}, INITIAL)
  {
    var none: set<SeqNum> := {};
    assert forall f: nat :: !AnyOf(none, f);
    forall f: nat
      ensures !CompleteIn(cat, none, f)
    {
      if f < |cat| {
        assert 0 < |cat[f].payloads| && SeqNum(f, 0) !in none;
      }
    }
    SettledIsFrontier(cat, {}, 0);
  }
}
