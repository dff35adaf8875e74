/** The receiver's view of one frame: fragment slots with incrementally kept counters. */
module Frames {
  import opened Wrappers
  import opened Wire
  import opened Protocol
  import Packetizer

  datatype FrameState = FrameState(
    id: uint32, frameType: uint8, frags: seq<Option<Datagram>>, nullFrags: nat, frameSize: nat)

  ghost function EmptySlots(frags: seq<Option<Datagram>>): nat {
    if frags == [] then 0 else (if frags[0].None? then 1 else 0) + EmptySlots(frags[1..])
  }

  ghost function StoredBytes(frags: seq<Option<Datagram>>): nat {
    if frags == [] then 0 else (if frags[0].Some? then |frags[0].value.payload| else 0) + StoredBytes(frags[1..])
  }

  predicate Compatible(f: FrameState, d: Datagram) {
    d.frameId == f.id && d.frameType == f.frameType && d.fragId < |f.frags| && d.fragCnt == |f.frags|
  }

  /** The counters agree with the slots, and every stored fragment sits in its own slot. */
  ghost predicate FrameOk(f: FrameState) {
    && 0 < |f.frags| < 0x1_0000
    && f.nullFrags == EmptySlots(f.frags)
    && f.frameSize == StoredBytes(f.frags)
    && forall g :: 0 <= g < |f.frags| && f.frags[g].Some? ==>
         Compatible(f, f.frags[g].value) && f.frags[g].value.fragId == g
  }

  predicate Complete(f: FrameState) {
    f.nullFrags == 0
  }

  lemma {:induction false} FillCounts(frags: seq<Option<Datagram>>, g: nat, d: Datagram)
    requires g < |frags| && frags[g].None?
    ensures EmptySlots(frags[g := Some(d)]) + 1 == EmptySlots(frags)
    ensures StoredBytes(frags[g := Some(d)]) == StoredBytes(frags) + |d.payload|
  {
    var filled := frags[g := Some(d)];
    if g == 0 {
      assert filled[1..] == frags[1..];
    } else {
      FillCounts(frags[1..], g - 1, d);
      assert filled[1..] == frags[1..][g - 1 := Some(d)];
    }
  }

  lemma {:induction false} NoEmptySlots(frags: seq<Option<Datagram>>)
    ensures EmptySlots(frags) == 0 <==> forall g :: 0 <= g < |frags| ==> frags[g].Some?
  {
    if frags != [] {
      NoEmptySlots(frags[1..]);
      assert forall g :: 1 <= g < |frags| ==> frags[g] == frags[1..][g - 1];
    }
  }

  /** complete() is exactly "every slot is filled". */
  lemma CompleteMeansFilled(f: FrameState)
    requires FrameOk(f)
    ensures Complete(f) <==> forall g :: 0 <= g < |f.frags| ==> f.frags[g].Some?
  {
    NoEmptySlots(f.frags);
  }

  // ---------- construction and insertion ----------

  ghost function Created(id: uint32, frameType: uint8, fragCnt: uint16): (r: Result<FrameState>)
    ensures r.Ok? ==> FrameOk(r.value)
  {
    if fragCnt == 0 then Throw(ZeroFragments)
    else
      var frags := seq(fragCnt, _ => None);
      AllEmpty(frags);
      Ok(FrameState(id, frameType, frags, fragCnt, 0))
  }

  lemma {:induction false} AllEmpty(frags: seq<Option<Datagram>>)
    requires forall g :: 0 <= g < |frags| ==> frags[g].None?
    ensures EmptySlots(frags) == |frags| && StoredBytes(frags) == 0
  {
    if frags != [] {
      AllEmpty(frags[1..]);
    }
  }

  /** The first copy of a fragment stays; an incompatible one throws. */
  ghost function Inserted(f: FrameState, d: Datagram): (r: Result<FrameState>)
    requires FrameOk(f)
    ensures r.Ok? ==> FrameOk(r.value)
  {
    if !Compatible(f, d) then Throw(IncompatibleDatagram)
    else if f.frags[d.fragId].Some? then Ok(f)
    else
      FillCounts(f.frags, d.fragId, d);
      Ok(f.(frags := f.frags[d.fragId := Some(d)],
            nullFrags := f.nullFrags - 1,
            frameSize := f.frameSize + |d.payload|))
  }

  /** A new frame: at least one slot, all of them empty. */
  lemma CreatedExactly(id: uint32, frameType: uint8, fragCnt: uint16)
    ensures fragCnt == 0 ==> Created(id, frameType, fragCnt) == Throw(ZeroFragments)
    ensures fragCnt > 0 ==>
              && Created(id, frameType, fragCnt).Ok?
              && var f := Created(id, frameType, fragCnt).value;
                 && f.id == id && f.frameType == frameType && |f.frags| == f.nullFrags == fragCnt && f.frameSize == 0
                 && forall g :: 0 <= g < fragCnt ==> f.frags[g].None?
  {
  }

  /** A datagram is refused exactly when its frame, type or count differs or its slot does not exist;
      else its slot holds it, unless it was filled already, and nothing else changes. */
  lemma InsertedExactly(f: FrameState, d: Datagram)
    requires FrameOk(f)
    ensures d.frameId != f.id || d.frameType != f.frameType || d.fragId >= |f.frags| || d.fragCnt != |f.frags| <==>
            Inserted(f, d) == Throw(IncompatibleDatagram)
    ensures Inserted(f, d).Throw? ==> Inserted(f, d).error == IncompatibleDatagram
    ensures Inserted(f, d).Ok? ==>
              var t := Inserted(f, d).value;
              && t.id == f.id && t.frameType == f.frameType && |t.frags| == |f.frags|
              && (forall g :: 0 <= g < |f.frags| ==>
                    t.frags[g] == if g == d.fragId && f.frags[g].None? then Some(d) else f.frags[g])
              && t.nullFrags == f.nullFrags - (if f.frags[d.fragId].None? then 1 else 0)
              && t.frameSize == f.frameSize + (if f.frags[d.fragId].None? then |d.payload| else 0)
  {
  }

  /** Inserting datagrams one after another, stopping at the first that throws. */
  ghost function InsertedAll(f: FrameState, ds: seq<Datagram>): (r: Result<FrameState>)
    requires FrameOk(f)
    ensures r.Ok? ==> FrameOk(r.value)
  {
    if ds == [] then Ok(f)
    else
      var r := InsertedAll(f, ds[..|ds| - 1]);
      if r.Throw? then r else Inserted(r.value, ds[|ds| - 1])
  }

  ghost function FilledSlots(f: FrameState): set<int> {
    set g | 0 <= g < |f.frags| && f.frags[g].Some?
  }

  lemma {:induction false} EmptySlotsCount(frags: seq<Option<Datagram>>, filled: set<int>)
    requires filled == set g | 0 <= g < |frags| && frags[g].Some?
    ensures EmptySlots(frags) + |filled| == |frags|
  {
    if frags == [] {
      assert filled == {};
    } else {
      var front := frags[..|frags| - 1];
      var last := |frags| - 1;
      var rest := set g | 0 <= g < |front| && front[g].Some?;
      EmptySlotsCount(front, rest);
      EmptySlotsSnoc(front, frags[last]);
      assert frags == front + [frags[last]];
      assert filled == if frags[last].Some? then rest + {last} else rest;
    }
  }

  lemma {:induction false} EmptySlotsSnoc(front: seq<Option<Datagram>>, slot: Option<Datagram>)
    ensures EmptySlots(front + [slot]) == EmptySlots(front) + if slot.None? then 1 else 0
  {
    if front != [] {
      EmptySlotsSnoc(front[1..], slot);
      assert (front + [slot])[1..] == front[1..] + [slot];
    }
  }

  ghost function FragIds(ds: seq<Datagram>): set<int> {
    set i | 0 <= i < |ds| :: ds[i].fragId as int
  }

  lemma FragIdsSnoc(front: seq<Datagram>, d: Datagram)
    ensures FragIds(front + [d]) == FragIds(front) + {d.fragId}
  {
    var ds := front + [d];
    forall g | g in FragIds(front) ensures g in FragIds(ds) {
      var i :| 0 <= i < |front| && front[i].fragId == g;
      assert ds[i].fragId == g;
    }
    assert ds[|front|].fragId in FragIds(ds);
    forall g | g in FragIds(ds) ensures g in FragIds(front) + {d.fragId} {
      var i :| 0 <= i < |ds| && ds[i].fragId == g;
      assert i < |front| ==> front[i].fragId == g;
    }
  }

  lemma InsertedSlot(f: FrameState, d: Datagram)
    requires FrameOk(f) && Compatible(f, d)
    ensures Inserted(f, d).Ok? && FilledSlots(Inserted(f, d).value) == FilledSlots(f) + {d.fragId}
  {
  }

  lemma {:induction false} InsertedSlots(f: FrameState, ds: seq<Datagram>)
    requires FrameOk(f) && forall i :: 0 <= i < |ds| ==> Compatible(f, ds[i])
    ensures InsertedAll(f, ds).Ok?
    ensures var r := InsertedAll(f, ds).value;
            && r.id == f.id && r.frameType == f.frameType && |r.frags| == |f.frags|
            && FilledSlots(r) == FilledSlots(f) + FragIds(ds)
  {
    if ds == [] {
      assert FragIds(ds) == {};
    } else {
      var front, last := ds[..|ds| - 1], ds[|ds| - 1];
      InsertedSlots(f, front);
      assert ds == front + [last];
      FragIdsSnoc(front, last);
      InsertedSlot(InsertedAll(f, front).value, last);
    }
  }

  /** Which slots are filled, and so the counter, is determined by the set of fragment ids inserted,
      and no compatible datagram throws. */
  lemma FilledByIds(f: FrameState, ds: seq<Datagram>)
    requires FrameOk(f) && forall i :: 0 <= i < |ds| ==> Compatible(f, ds[i])
    ensures InsertedAll(f, ds).Ok?
    ensures var r := InsertedAll(f, ds).value;
            && FilledSlots(r) == FilledSlots(f) + FragIds(ds)
            && r.nullFrags == |f.frags| - |FilledSlots(f) + FragIds(ds)|
            && (Complete(r) <==> forall g :: 0 <= g < |f.frags| ==> g in FilledSlots(f) + FragIds(ds))
  {
    InsertedSlots(f, ds);
    var r := InsertedAll(f, ds).value;
    EmptySlotsCount(r.frags, FilledSlots(r));
    CompleteMeansFilled(r);
    assert forall g :: 0 <= g < |r.frags| ==> (r.frags[g].Some? <==> g in FilledSlots(r));
  }

  /** What a slot shows: its payload, if it is filled. */
  ghost function Shown(slot: Option<Datagram>): Option<seq<byte>> {
    if slot.Some? then Some(slot.value.payload) else None
  }

  ghost predicate SameShown(a: seq<Option<Datagram>>, b: seq<Option<Datagram>>) {
    |a| == |b| && forall g :: 0 <= g < |a| ==> Shown(a[g]) == Shown(b[g])
  }

  /** Datagrams whose payloads are determined by their fragment ids. */
  ghost predicate Carry(payloads: seq<seq<byte>>, ds: seq<Datagram>) {
    forall i :: 0 <= i < |ds| ==> ds[i].fragId < |payloads| && ds[i].payload == payloads[ds[i].fragId]
  }

  lemma {:induction false} SizeIsShown(a: seq<Option<Datagram>>, b: seq<Option<Datagram>>)
    requires SameShown(a, b)
    ensures StoredBytes(a) == StoredBytes(b)
  {
    if a != [] {
      assert Shown(a[0]) == Shown(b[0]);
      assert forall g :: 0 <= g < |a[1..]| ==> a[1..][g] == a[g + 1] && b[1..][g] == b[g + 1];
      SizeIsShown(a[1..], b[1..]);
    }
  }

  /** A slot keeps what it held, or shows the payload of its fragment id. */
  lemma {:induction false} InsertedShows(f: FrameState, ds: seq<Datagram>, payloads: seq<seq<byte>>)
    requires FrameOk(f) && (forall i :: 0 <= i < |ds| ==> Compatible(f, ds[i])) && Carry(payloads, ds)
    ensures InsertedAll(f, ds).Ok?
    ensures var r := InsertedAll(f, ds).value;
            && |r.frags| == |f.frags|
            && (forall g :: 0 <= g < |f.frags| && f.frags[g].Some? ==> r.frags[g] == f.frags[g])
            && (forall g :: 0 <= g < |f.frags| && f.frags[g].None? && r.frags[g].Some? ==>
                  g < |payloads| && r.frags[g].value.payload == payloads[g])
  {
    InsertedSlots(f, ds);
    if ds != [] {
      var front := ds[..|ds| - 1];
      InsertedSlots(f, front);
      InsertedShows(f, front, payloads);
    }
  }

  /** Order and duplicates do not matter: for datagrams whose payloads are determined by their fragment
      ids, two sequences with the same ids fill the same slots with the same payloads, and leave the
      same counters. */
  lemma InsertOrderIrrelevant(f: FrameState, ds: seq<Datagram>, es: seq<Datagram>, payloads: seq<seq<byte>>)
    requires FrameOk(f)
    requires forall i :: 0 <= i < |ds| ==> Compatible(f, ds[i])
    requires forall i :: 0 <= i < |es| ==> Compatible(f, es[i])
    requires FragIds(ds) == FragIds(es) && Carry(payloads, ds) && Carry(payloads, es)
    ensures InsertedAll(f, ds).Ok? && InsertedAll(f, es).Ok?
    ensures var r, t := InsertedAll(f, ds).value, InsertedAll(f, es).value;
            && r.nullFrags == t.nullFrags && r.frameSize == t.frameSize && (Complete(r) <==> Complete(t))
            && SameShown(r.frags, t.frags)
  {
    FilledByIds(f, ds);
    FilledByIds(f, es);
    InsertedShows(f, ds, payloads);
    InsertedShows(f, es, payloads);
    var r, t := InsertedAll(f, ds).value, InsertedAll(f, es).value;
    forall g | 0 <= g < |f.frags|
      ensures Shown(r.frags[g]) == Shown(t.frags[g])
    {
      assert g in FilledSlots(r) <==> g in FilledSlots(t);
    }
    SizeIsShown(r.frags, t.frags);
  }

  /** The payloads of a complete frame in fragment order. */
  ghost function Payloads(f: FrameState): (ps: seq<seq<byte>>)
    requires forall g :: 0 <= g < |f.frags| ==> f.frags[g].Some?
  {
    seq(|f.frags|, g requires 0 <= g < |f.frags| => f.frags[g].value.payload)
  }

  ghost function Content(f: FrameState): seq<byte>
    requires forall g :: 0 <= g < |f.frags| ==> f.frags[g].Some?
  {
    Packetizer.Concat(Payloads(f))
  }

  /** The incrementally kept size of a complete frame is the length of its content. */
  lemma SizeIsContentLength(f: FrameState)
    requires FrameOk(f) && Complete(f)
    ensures (forall g :: 0 <= g < |f.frags| ==> f.frags[g].Some?) && f.frameSize == |Content(f)|
  {
    CompleteMeansFilled(f);
    assert f.frags[..|f.frags|] == f.frags;
    assert Payloads(f)[..|f.frags|] == Payloads(f);
    StoredPrefix(f, |f.frags|);
  }

  lemma {:induction false} StoredPrefix(f: FrameState, n: nat)
    requires n <= |f.frags| && forall g :: 0 <= g < |f.frags| ==> f.frags[g].Some?
    ensures StoredBytes(f.frags[..n]) == |Packetizer.Concat(Payloads(f)[..n])|
  {
    if n > 0 {
      StoredPrefix(f, n - 1);
      assert f.frags[..n] == f.frags[..n - 1] + [f.frags[n - 1]];
      StoredSnoc(f.frags[..n - 1], f.frags[n - 1].value);
      assert Payloads(f)[..n][..n - 1] == Payloads(f)[..n - 1];
    }
  }

  lemma {:induction false} StoredSnoc(front: seq<Option<Datagram>>, d: Datagram)
    ensures StoredBytes(front + [Some(d)]) == StoredBytes(front) + |d.payload|
  {
    if front != [] {
      StoredSnoc(front[1..], d);
      assert (front + [Some(d)])[1..] == front[1..] + [Some(d)];
    }
  }

  // ---------- the frame object ----------

  class Frame {
    const id: uint32
    const frameType: uint8
    var frags: seq<Option<Datagram>>
    var nullFrags: nat
    var frameSize: nat

    ghost function View(): FrameState
      reads this
    {
      FrameState(id, frameType, frags, nullFrags, frameSize)
    }

    ghost predicate Valid()
      reads this
    {
      FrameOk(View())
    }

    constructor (frameId: uint32, frameType: uint8, fragCnt: uint16)
      requires fragCnt > 0
      ensures Valid() && Created(frameId, frameType, fragCnt) == Ok(View())
    {
      this.id := frameId;
      this.frameType := frameType;
      frags := seq(fragCnt, _ => None);
      nullFrags := fragCnt;
      frameSize := 0;
      new;
      AllEmpty(frags);
      assert frags == Created(frameId, frameType, fragCnt).value.frags;
    }

    /** Constructing a frame without fragments throws. */
    static method Create(frameId: uint32, frameType: uint8, fragCnt: uint16) returns (r: Result<Frame>)
      ensures r.Throw? ==> Created(frameId, frameType, fragCnt) == Throw(r.error)
      ensures r.Ok? ==> fresh(r.value) && r.value.Valid() &&
                        Created(frameId, frameType, fragCnt) == Ok(r.value.View())
    {
      if fragCnt == 0 {
        return Throw(ZeroFragments);
      }
      var f := new Frame(frameId, frameType, fragCnt);
      r := Ok(f);
    }

    predicate IsComplete()
      reads this
    {
      nullFrags == 0
    }

    method InsertFrag(d: Datagram) returns (r: Result<()>)
      requires Valid()
      modifies this
      ensures Valid()
      ensures r.Throw? ==> View() == old(View()) && Inserted(old(View()), d) == Throw(r.error)
      ensures r.Ok? ==> Inserted(old(View()), d) == Ok(View())
    {
      if d.frameId != id || d.frameType != frameType || d.fragId >= |frags| || d.fragCnt != |frags| {
        return Throw(IncompatibleDatagram);
      }
      if frags[d.fragId].None? {
        FillCounts(frags, d.fragId, d);
        frameSize := frameSize + |d.payload|;
        nullFrags := nullFrags - 1;
        frags := frags[d.fragId := Some(d)];
      }
      r := Ok(());
    }

    method FrameSize() returns (r: Option<nat>)
      requires Valid()
      ensures r.Some? <==> Complete(View())
      ensures r.Some? ==> (forall g :: 0 <= g < |frags| ==> frags[g].Some?) && r.value == |Content(View())|
    {
      if nullFrags != 0 {
        return None;
      }
      SizeIsContentLength(View());
      r := Some(frameSize);
    }
  }

  /** What decoding a frame hands to the codec: its content, unless that does not fit the buffer. */
  ghost function Decoded(f: FrameState): Result<seq<byte>>
    requires FrameOk(f)
  {
    if !Complete(f) then Throw(IncompleteFrame)
    else
      SizeIsContentLength(f);
      if |Content(f)| >= Packetizer.MAX_DECODING_BUF then Throw(DecodeBufferFull) else Ok(Content(f))
  }

  /** Decoding copies a frame's content; it throws on frames of 1 000 000 bytes or more. */
  method DecodeFrame(f: FrameState, decodeBuf: array<byte>) returns (r: Result<nat>)
    requires FrameOk(f) && decodeBuf.Length == Packetizer.MAX_DECODING_BUF
    modifies decodeBuf
    ensures r == Throw(IncompleteFrame) <==> !Complete(f)
    ensures r == Throw(DecodeBufferFull) <==> Complete(f) && f.frameSize >= 1_000_000
    ensures r.Throw? ==> Decoded(f) == Throw(r.error)
    ensures r.Ok? ==> r.value == f.frameSize <= decodeBuf.Length && Decoded(f) == Ok(decodeBuf[..r.value])
  {
    if f.nullFrags != 0 {
      return Throw(IncompleteFrame);
    }
    SizeIsContentLength(f);
    var ps := seq(|f.frags|, g requires 0 <= g < |f.frags| && f.frags[g].Some? => f.frags[g].value.payload);
    assert ps == Payloads(f);
    r := Packetizer.CopyPayloads(ps, decodeBuf);
  }

  /** The size kept by the counters decides whether a complete frame is decoded or refused. */
  lemma DecodedExactly(f: FrameState)
    requires FrameOk(f) && Complete(f)
    ensures (forall g :: 0 <= g < |f.frags| ==> f.frags[g].Some?)
    ensures Decoded(f) == if f.frameSize >= 1_000_000 then Throw(DecodeBufferFull) else Ok(Content(f))
  {
    SizeIsContentLength(f);
  }
}
