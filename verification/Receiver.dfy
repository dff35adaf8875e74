/** The receiver's main loop. */
module Receiving {
  import opened Wrappers
  import opened Wire
  import opened Protocol
  import opened Decoding
  import opened Confluence

  /** An acknowledgement echoes the number and the send time of the very copy received. */
  ghost predicate AckedBy(binary: seq<byte>, ack: seq<byte>) {
    |binary| >= HEADER_SIZE && ack == SerializeMsg(Ack(AckOf(ParsedDatagram(binary).value)))
  }

  /** One round: parse, acknowledge, add, then dispatch all that can be dispatched. */
  method ReceiveRound(decoder: Decoder, binary: seq<byte>) returns (ack: Option<seq<byte>>, r: Result<()>)
    requires decoder.Valid()
    modifies decoder, decoder.frameBuf.Values
    ensures fresh(decoder.frameBuf.Values - old(decoder.frameBuf.Values))
    ensures |binary| < HEADER_SIZE ==> ack == None && r == Throw(UnparsableDatagram)
    ensures |binary| >= HEADER_SIZE ==>
              var d := ParsedDatagram(binary).value;
              && ack == Some(SerializeMsg(Ack(AckOf(d))))
              && (r.Throw? ==> Received(old(decoder.State()), d) == Throw(r.error))
              && (r.Ok? ==> decoder.Valid() && Received(old(decoder.State()), d) == Ok(decoder.State()))
  {
    var parsed := ParseDatagram(binary);
    if parsed.None? {
      return None, Throw(UnparsableDatagram);
    }
    ack := Some(SerializeMsg(Ack(AckOf(parsed.value))));
    r := decoder.AddDatagram(parsed.value);
    if r.Ok? {
      decoder.Drain();
    }
  }

  // ---------- the whole loop ----------

  ghost function Looped(s: DecoderState, binaries: seq<seq<byte>>): (r: Result<DecoderState>)
    requires DecoderOk(s)
    ensures r.Ok? ==> DecoderOk(r.value)
    decreases |binaries|
  {
    if binaries == [] then Ok(s)
    else if |binaries[0]| < HEADER_SIZE then Throw(UnparsableDatagram)
    else
      var t := Received(s, ParsedDatagram(binaries[0]).value);
      if t.Throw? then t else Looped(t.value, binaries[1..])
  }

  /** What the loop sends back: an acknowledgement for every binary that parses, up to and including
      the one at which it throws. */
  ghost function AcksSent(s: DecoderState, binaries: seq<seq<byte>>): seq<seq<byte>>
    requires DecoderOk(s)
    decreases |binaries|
  {
    if binaries == [] || |binaries[0]| < HEADER_SIZE then []
    else
      var d := ParsedDatagram(binaries[0]).value;
      var t := Received(s, d);
      [SerializeMsg(Ack(AckOf(d)))] + if t.Throw? then [] else AcksSent(t.value, binaries[1..])
  }

  /** Unfolding the loop over a non-empty prefix. */
  lemma PrefixLooped(s: DecoderState, binaries: seq<seq<byte>>, n: nat)
    requires DecoderOk(s) && 0 < n <= |binaries| && |binaries[0]| >= HEADER_SIZE
    ensures var t := Received(s, ParsedDatagram(binaries[0]).value);
            Looped(s, binaries[..n]) == if t.Throw? then t else Looped(t.value, binaries[1..][..n - 1])
  {
    assert binaries[..n][1..] == binaries[1..][..n - 1];
  }

  /** The acknowledgements answer the binaries in order; a loop that ends well answers them all. */
  lemma {:induction false} AcksSentAnswer(s: DecoderState, binaries: seq<seq<byte>>)
    requires DecoderOk(s)
    ensures var acks := AcksSent(s, binaries);
            && |acks| <= |binaries| && (forall i :: 0 <= i < |acks| ==> AckedBy(binaries[i], acks[i]))
            && (Looped(s, binaries).Ok? ==> |acks| == |binaries|)
    decreases |binaries|
  {
    if binaries != [] && |binaries[0]| >= HEADER_SIZE {
      var t := Received(s, ParsedDatagram(binaries[0]).value);
      if t.Ok? {
        AcksSentAnswer(t.value, binaries[1..]);
      }
    }
  }

  /** When the loop throws, either the binary behind the acknowledged ones does not parse, or the last
      acknowledged one is the one that throws; everything before was handled well. */
  lemma {:induction false} AcksSentUpToThrow(s: DecoderState, binaries: seq<seq<byte>>)
    requires DecoderOk(s) && Looped(s, binaries).Throw?
    ensures var n := |AcksSent(s, binaries)|;
            && n <= |binaries|
            && ((n < |binaries| && |binaries[n]| < HEADER_SIZE && Looped(s, binaries[..n]).Ok?) ||
                (n > 0 && Looped(s, binaries[..n - 1]).Ok? && Looped(s, binaries[..n]) == Looped(s, binaries)))
    decreases |binaries|
  {
    if |binaries[0]| >= HEADER_SIZE {
      var t := Received(s, ParsedDatagram(binaries[0]).value);
      var n := |AcksSent(s, binaries)|;
      if t.Throw? {
        PrefixLooped(s, binaries, n);
      } else {
        AcksSentUpToThrow(t.value, binaries[1..]);
        PrefixLooped(s, binaries, n);
        if n > 1 {
          PrefixLooped(s, binaries, n - 1);
        }
      }
    }
  }

  /** A binary shorter than a header ends the loop with an exception, whatever comes behind it, and so
      does the first datagram that the decoder refuses. */
  lemma {:induction false} FirstBadBinaryThrows(s: DecoderState, binaries: seq<seq<byte>>, k: nat)
    requires DecoderOk(s) && k < |binaries| && Looped(s, binaries[..k]).Ok?
    ensures |binaries[k]| < 17 ==> Looped(s, binaries) == Throw(UnparsableDatagram)
    ensures |binaries[k]| >= 17 ==>
              var t := Looped(s, binaries[..k]).value;
              var r := Received(t, ParsedDatagram(binaries[k]).value);
              Looped(s, binaries) == if r.Throw? then r else Looped(r.value, binaries[k + 1..])
    decreases k
  {
    if k > 0 {
      var t := Received(s, ParsedDatagram(binaries[0]).value).value;
      PrefixLooped(s, binaries, k);
      FirstBadBinaryThrows(t, binaries[1..], k - 1);
      assert binaries[1..][k - 1] == binaries[k] && binaries[1..][k..] == binaries[k + 1..];
    }
  }

  lemma LoopUnfolds(s: DecoderState, binaries: seq<seq<byte>>, i: nat)
    requires DecoderOk(s) && i < |binaries| && |binaries[i]| >= HEADER_SIZE
    ensures var d := ParsedDatagram(binaries[i]).value;
            var t := Received(s, d);
            && Looped(s, binaries[i..]) == (if t.Throw? then t else Looped(t.value, binaries[i + 1..]))
            && AcksSent(s, binaries[i..]) ==
               [SerializeMsg(Ack(AckOf(d)))] + if t.Throw? then [] else AcksSent(t.value, binaries[i + 1..])
  {
    assert binaries[i..][0] == binaries[i] && binaries[i..][1..] == binaries[i + 1..];
  }

  /** What the loop still has to do after i rounds, and all it sends, when it goes through one more. */
  lemma LoopStep(s: DecoderState, binaries: seq<seq<byte>>, i: nat, acks: seq<seq<byte>>)
    requires DecoderOk(s) && i < |binaries| && |binaries[i]| >= HEADER_SIZE
    ensures var d := ParsedDatagram(binaries[i]).value;
            var t := Received(s, d);
            var more := acks + [SerializeMsg(Ack(AckOf(d)))];
            && Looped(s, binaries[i..]) == (if t.Throw? then t else Looped(t.value, binaries[i + 1..]))
            && acks + AcksSent(s, binaries[i..]) ==
               more + if t.Throw? then [] else AcksSent(t.value, binaries[i + 1..])
  {
    var d := ParsedDatagram(binaries[i]).value;
    var t := Received(s, d);
    LoopUnfolds(s, binaries, i);
    Assoc(acks, [SerializeMsg(Ack(AckOf(d)))], if t.Throw? then [] else AcksSent(t.value, binaries[i + 1..]));
  }

  lemma LoopedOnce(s: DecoderState, binary: seq<byte>)
    requires DecoderOk(s) && |binary| >= HEADER_SIZE
    ensures Looped(s, [binary]) == Received(s, ParsedDatagram(binary).value)
    ensures AcksSent(s, [binary]) == [SerializeMsg(Ack(AckOf(ParsedDatagram(binary).value)))]
  {
    assert [binary][1..] == [];
  }

  /** The loop over the binaries received, up to the first that throws. */
  method ReceiveLoop(decoder: Decoder, binaries: seq<seq<byte>>) returns (acks: seq<seq<byte>>, r: Result<()>)
    requires decoder.Valid()
    modifies decoder, decoder.frameBuf.Values
    ensures r.Throw? ==> Looped(old(decoder.State()), binaries) == Throw(r.error)
    ensures r.Ok? ==> decoder.Valid() && Looped(old(decoder.State()), binaries) == Ok(decoder.State())
    ensures acks == AcksSent(old(decoder.State()), binaries)
  {
    acks := [];
    ghost var was := decoder.State();
    for i := 0 to |binaries|
      invariant decoder.Valid() && fresh(decoder.frameBuf.Values - old(decoder.frameBuf.Values))
      invariant Looped(decoder.State(), binaries[i..]) == Looped(was, binaries)
      invariant acks + AcksSent(decoder.State(), binaries[i..]) == AcksSent(was, binaries)
    {
      ghost var s := decoder.State();
      if |binaries[i]| >= HEADER_SIZE {
        LoopStep(s, binaries, i, acks);
      }
      var ack, round := ReceiveRound(decoder, binaries[i]);
      if ack.Some? {
        acks := acks + [ack.value];
      }
      if round.Throw? {
        return acks, round;
      }
    }
    r := Ok(());
  }

  ghost predicate Explains(cat: Catalog, binaries: seq<seq<byte>>, ds: seq<Datagram>) {
    |ds| == |binaries| &&
    forall i :: 0 <= i < |ds| ==> ParsedDatagram(binaries[i]) == Some(ds[i]) && Agrees(cat, ds[i])
  }

  lemma NumsFirst(got: set<SeqNum>, ds: seq<Datagram>)
    requires ds != []
    ensures got + {ds[0].Num()} + Nums(ds[1..]) == got + Nums(ds)
  {
    assert ds == [ds[0]] + ds[1..];
    NumsConcat([ds[0]], ds[1..]);
    NumsOne(ds[0]);
  }

  lemma ExplainsRest(cat: Catalog, binaries: seq<seq<byte>>, ds: seq<Datagram>)
    requires Explains(cat, binaries, ds) && binaries != []
    ensures ParsedDatagram(binaries[0]) == Some(ds[0]) && Agrees(cat, ds[0])
    ensures Explains(cat, binaries[1..], ds[1..])
  {
  }

  lemma {:induction false} LoopKeepsInv(cat: Catalog, got: set<SeqNum>, s: DecoderState,
                                        binaries: seq<seq<byte>>, ds: seq<Datagram>)
    requires CatalogOk(cat) && ReceiverInv(cat, got, s) && Explains(cat, binaries, ds)
    ensures Looped(s, binaries).Ok? && ReceiverInv(cat, got + Nums(ds), Looped(s, binaries).value)
    decreases |binaries|
  {
    if binaries == [] {
      assert got + Nums(ds) == got;
    } else {
      ExplainsRest(cat, binaries, ds);
      ReceiveKeepsInv(cat, got, s, ds[0]);
      LoopKeepsInv(cat, got + {ds[0].Num()}, Received(s, ds[0]).value, binaries[1..], ds[1..]);
      NumsFirst(got, ds);
    }
  }

  /** For any arrival order, loss and duplication of consistent datagrams: the loop never throws, the
      frontier is the function Frontier of the set received, the buffer holds exactly what was
      received at or beyond it, and what was dispatched is a decodable chain of the true frames. */
  lemma LoopConfluence(cat: Catalog, binaries: seq<seq<byte>>, ds: seq<Datagram>)
    requires CatalogOk(cat) && Explains(cat, binaries, ds)
    ensures Looped(INITIAL, binaries).Ok?
    ensures var s := Looped(INITIAL, binaries).value;
            s.next == Frontier(cat, Nums(ds)) && BufMatches(cat, Nums(ds), s) && QueueOk(cat, s.queue)
  {
    InitialInv(cat);
    LoopKeepsInv(cat, {}, INITIAL, binaries, ds);
    assert {} + Nums(ds) == Nums(ds);
  }

  /** Runs that receive the same fragments, in whatever order and however often, agree on the
      frontier, on the buffered frames and on every buffered fragment's payload. */
  lemma ArrivalOrderIrrelevant(cat: Catalog, binaries: seq<seq<byte>>, ds: seq<Datagram>,
                               binaries': seq<seq<byte>>, ds': seq<Datagram>)
    requires CatalogOk(cat) && Explains(cat, binaries, ds) && Explains(cat, binaries', ds')
    requires Nums(ds) == Nums(ds')
    ensures Looped(INITIAL, binaries).Ok? && Looped(INITIAL, binaries').Ok?
    ensures var s, t := Looped(INITIAL, binaries).value, Looped(INITIAL, binaries').value;
            && s.next == t.next && s.buf.Keys == t.buf.Keys
            && forall f: nat, g: nat :: f in s.buf && g < |s.buf[f].frags| ==>
                 && |t.buf[f].frags| == |s.buf[f].frags|
                 && (s.buf[f].frags[g].Some? <==> t.buf[f].frags[g].Some?)
                 && (s.buf[f].frags[g].Some? ==> s.buf[f].frags[g].value.payload == t.buf[f].frags[g].value.payload)
  {
    LoopConfluence(cat, binaries, ds);
    LoopConfluence(cat, binaries', ds');
    var s, t := Looped(INITIAL, binaries).value, Looped(INITIAL, binaries').value;
    assert forall f: nat :: f in s.buf <==> f in t.buf;
    forall f: nat, g: nat | f in s.buf && g < |s.buf[f].frags|
      ensures |t.buf[f].frags| == |s.buf[f].frags|
      ensures s.buf[f].frags[g].Some? <==> t.buf[f].frags[g].Some?
      ensures s.buf[f].frags[g].Some? ==> s.buf[f].frags[g].value.payload == t.buf[f].frags[g].value.payload
    {
      assert FrameMatches(cat, Nums(ds), f, s.buf[f]) && FrameMatches(cat, Nums(ds), f, t.buf[f]);
    }
  }
}
