/** Datagrams, messages and their wire formats. */
module Protocol {
  import opened Wrappers
  import opened Wire

  const KEY: uint8 := 1
  const NONKEY: uint8 := 2

  const ACK: uint8 := 1
  const CONFIG: uint8 := 2

  const HEADER_SIZE: nat := 17

  /** A datagram is numbered by its frame and its place in the frame. */
  datatype SeqNum = SeqNum(frameId: nat, fragId: nat)

  predicate Less(a: SeqNum, b: SeqNum) {
    a.frameId < b.frameId || (a.frameId == b.frameId && a.fragId < b.fragId)
  }

  // numRtx and lastSendTs stay on the sender; the other fields travel on the wire.
  datatype Datagram = Datagram(
    frameId: uint32, frameType: uint8, fragId: uint16, fragCnt: uint16,
    sendTs: uint64, payload: seq<byte>, numRtx: nat, lastSendTs: uint64)
  {
    function Num(): SeqNum {
      SeqNum(frameId, fragId)
    }
  }

  ghost function Nums(ds: seq<Datagram>): set<SeqNum> {
    set d | d in ds :: d.Num()
  }

  lemma NumsConcat(ds: seq<Datagram>, es: seq<Datagram>)
    ensures Nums(ds + es) == Nums(ds) + Nums(es)
  {
    forall n | n in Nums(ds) + Nums(es)
      ensures n in Nums(ds + es)
    {
      var d :| (d in ds || d in es) && d.Num() == n;
      assert d in ds + es;
    }
  }

  lemma NumsOne(d: Datagram)
    ensures Nums([d]) == {d.Num()}
  {
    assert d in [d];
  }

  lemma NumsMember(ds: seq<Datagram>, n: SeqNum) returns (i: nat)
    requires n in Nums(ds)
    ensures i < |ds| && ds[i].Num() == n
  {
    var d :| d in ds && d.Num() == n;
    i :| 0 <= i < |ds| && ds[i] == d;
  }

  lemma NumsAt(ds: seq<Datagram>, i: nat)
    requires i < |ds|
    ensures ds[i].Num() in Nums(ds)
  {
    assert ds[i] in ds;
  }

  /** How often a number is in a queue. */
  ghost function Occurrences(ds: seq<Datagram>, n: SeqNum): nat {
    if ds == [] then 0 else Occurrences(ds[..|ds| - 1], n) + if ds[|ds| - 1].Num() == n then 1 else 0
  }

  datatype AckMsg = AckMsg(frameId: uint32, fragId: uint16, sendTs: uint64)
  datatype ConfigMsg = ConfigMsg(width: uint16, height: uint16, frameRate: uint16, targetBitrate: uint32)
  datatype Msg = Ack(ack: AckMsg) | Config(config: ConfigMsg)

  function AckOf(d: Datagram): AckMsg {
    AckMsg(d.frameId, d.fragId, d.sendTs)
  }

  // ---------- serialization ----------

  function SerializeDatagram(d: Datagram): seq<byte> {
    PutNumber(d.frameId, 4) + (PutNumber(d.frameType, 1) + (PutNumber(d.fragId, 2) +
    (PutNumber(d.fragCnt, 2) + (PutNumber(d.sendTs, 8) + d.payload))))
  }

  function SerializeMsg(m: Msg): seq<byte> {
    match m
    case Ack(a) =>
      PutNumber(ACK, 1) + (PutNumber(a.frameId, 4) + (PutNumber(a.fragId, 2) + PutNumber(a.sendTs, 8)))
    case Config(c) =>
      PutNumber(CONFIG, 1) + (PutNumber(c.width, 2) + (PutNumber(c.height, 2) +
      (PutNumber(c.frameRate, 2) + PutNumber(c.targetBitrate, 4))))
  }

  function SerializedSize(m: Msg): nat {
    match m
    case Ack(_) => 1 + 2 + 4 + 8
    case Config(_) => 1 + 3 * 2 + 4
  }

  // ---------- what parsing yields ----------

  /** The header fields follow one another; the payload is whatever is left. */
  function ParsedDatagram(b: seq<byte>): Option<Datagram> {
    if |b| < HEADER_SIZE then None
    else
      Widths();
      var b1 := b[4..];
      var b2 := b1[1..];
      var b3 := b2[2..];
      var b4 := b3[2..];
      Some(Datagram(GetNumber(b[..4]), GetNumber(b1[..1]), GetNumber(b2[..2]),
                    GetNumber(b3[..2]), GetNumber(b4[..8]), b4[8..], 0, 0))
  }

  /** Short ACK and CONFIG messages make the parser throw; other types are ignored. */
  function ParsedMsg(b: seq<byte>): Result<Option<Msg>> {
    if |b| < 1 then Ok(None)
    else
      var msgType := GetNumber(b[..1]);
      if msgType == ACK then ParsedAck(b[1..])
      else if msgType == CONFIG then ParsedConfig(b[1..])
      else Ok(None)
  }

  function ParsedAck(b: seq<byte>): Result<Option<Msg>> {
    if |b| < 14 then Throw(ReadPastEnd)
    else
      Widths();
      var b1 := b[4..];
      var b2 := b1[2..];
      Ok(Some(Ack(AckMsg(GetNumber(b[..4]), GetNumber(b1[..2]), GetNumber(b2[..8])))))
  }

  function ParsedConfig(b: seq<byte>): Result<Option<Msg>> {
    if |b| < 10 then Throw(ReadPastEnd)
    else
      Widths();
      var b1 := b[2..];
      var b2 := b1[2..];
      var b3 := b2[2..];
      Ok(Some(Config(ConfigMsg(GetNumber(b[..2]), GetNumber(b1[..2]), GetNumber(b2[..2]), GetNumber(b3[..4])))))
  }

  // ---------- parsing with a moving cursor ----------

  /** Fills a fresh datagram field by field; only a short header is refused. */
  method ParseDatagram(binary: seq<byte>) returns (r: Option<Datagram>)
    ensures r == ParsedDatagram(binary)
  {
    if |binary| < HEADER_SIZE {
      return None;
    }
    Widths();
    var parser := new WireParser(binary);
    var frameId := parser.Read(4);
    var frameType := parser.Read(1);
    var fragId := parser.Read(2);
    var fragCnt := parser.Read(2);
    var sendTs := parser.Read(8);
    ghost var rest := parser.str;
    var payload := parser.ReadString(|parser.str|);
    assert payload.value == rest[..|rest|] == rest;
    r := Some(Datagram(frameId.value, frameType.value, fragId.value, fragCnt.value,
                       sendTs.value, payload.value, 0, 0));
  }

  method ParseMsg(binary: seq<byte>) returns (r: Result<Option<Msg>>)
    ensures r == ParsedMsg(binary)
  {
    if |binary| < 1 {
      return Ok(None);
    }
    Widths();
    var parser := new WireParser(binary);
    var first := parser.Read(1);
    var msgType := first.value;
    if msgType == ACK {
      var frameId :- parser.Read(4);
      var fragId :- parser.Read(2);
      var sendTs :- parser.Read(8);
      r := Ok(Some(Ack(AckMsg(frameId, fragId, sendTs))));
    } else if msgType == CONFIG {
      var width :- parser.Read(2);
      var height :- parser.Read(2);
      var frameRate :- parser.Read(2);
      var targetBitrate :- parser.Read(4);
      r := Ok(Some(Config(ConfigMsg(width, height, frameRate, targetBitrate))));
    } else {
      r := Ok(None);
    }
  }

  // ---------- round trips ----------

  /** Every wire field survives; the sender's own bookkeeping does not travel. */
  lemma DatagramRoundTrip(d: Datagram)
    ensures ParsedDatagram(SerializeDatagram(d)) == Some(d.(numRtx := 0, lastSendTs := 0))
  {
    Widths();
    var b4 := PutNumber(d.sendTs, 8) + d.payload;
    var b3 := PutNumber(d.fragCnt, 2) + b4;
    var b2 := PutNumber(d.fragId, 2) + b3;
    var b1 := PutNumber(d.frameType, 1) + b2;
    ReadBack(d.sendTs, 8, d.payload);
    ReadBack(d.fragCnt, 2, b4);
    ReadBack(d.fragId, 2, b3);
    ReadBack(d.frameType, 1, b2);
    ReadBack(d.frameId, 4, b1);
  }

  /** Any binary long enough to parse, also one no sender wrote, is given back by re-serializing. */
  lemma BinaryRoundTrip(b: seq<byte>)
    requires |b| >= HEADER_SIZE
    ensures SerializeDatagram(ParsedDatagram(b).value) == b
  {
    var b1 := b[4..];
    var b2 := b1[1..];
    var b3 := b2[2..];
    var b4 := b3[2..];
    WriteBack(b, 4);
    WriteBack(b1, 1);
    WriteBack(b2, 2);
    WriteBack(b3, 2);
    WriteBack(b4, 8);
  }

  lemma AckLayout(a: AckMsg, rest: seq<byte>)
    ensures SerializeMsg(Ack(a)) + rest ==
            PutNumber(ACK, 1) + (PutNumber(a.frameId, 4) + (PutNumber(a.fragId, 2) + (PutNumber(a.sendTs, 8) + rest)))
  {
    var p0, p1, p2, p3 := PutNumber(ACK, 1), PutNumber(a.frameId, 4), PutNumber(a.fragId, 2), PutNumber(a.sendTs, 8);
    Assoc(p0, p1 + (p2 + p3), rest);
    Assoc(p1, p2 + p3, rest);
    Assoc(p2, p3, rest);
  }

  lemma AckBody(a: AckMsg, rest: seq<byte>)
    ensures ParsedAck(PutNumber(a.frameId, 4) + (PutNumber(a.fragId, 2) + (PutNumber(a.sendTs, 8) + rest))) ==
            Ok(Some(Ack(a)))
  {
    Widths();
    var b2 := PutNumber(a.sendTs, 8) + rest;
    var b1 := PutNumber(a.fragId, 2) + b2;
    ReadBack(a.sendTs, 8, rest);
    ReadBack(a.fragId, 2, b2);
    ReadBack(a.frameId, 4, b1);
  }

  lemma ConfigLayout(c: ConfigMsg, rest: seq<byte>)
    ensures SerializeMsg(Config(c)) + rest ==
            PutNumber(CONFIG, 1) + (PutNumber(c.width, 2) + (PutNumber(c.height, 2) +
            (PutNumber(c.frameRate, 2) + (PutNumber(c.targetBitrate, 4) + rest))))
  {
    var p0, p1, p2 := PutNumber(CONFIG, 1), PutNumber(c.width, 2), PutNumber(c.height, 2);
    var p3, p4 := PutNumber(c.frameRate, 2), PutNumber(c.targetBitrate, 4);
    Assoc(p0, p1 + (p2 + (p3 + p4)), rest);
    Assoc(p1, p2 + (p3 + p4), rest);
    Assoc(p2, p3 + p4, rest);
    Assoc(p3, p4, rest);
  }

  lemma ConfigBody(c: ConfigMsg, rest: seq<byte>)
    ensures ParsedConfig(PutNumber(c.width, 2) + (PutNumber(c.height, 2) +
              (PutNumber(c.frameRate, 2) + (PutNumber(c.targetBitrate, 4) + rest)))) ==
            Ok(Some(Config(c)))
  {
    Widths();
    var b3 := PutNumber(c.targetBitrate, 4) + rest;
    var b2 := PutNumber(c.frameRate, 2) + b3;
    var b1 := PutNumber(c.height, 2) + b2;
    ReadBack(c.targetBitrate, 4, rest);
    ReadBack(c.frameRate, 2, b3);
    ReadBack(c.height, 2, b2);
    ReadBack(c.width, 2, b1);
  }

  /** The type byte selects the body. */
  lemma TypeByte(msgType: uint8, body: seq<byte>)
    ensures msgType == ACK ==> ParsedMsg(PutNumber(msgType, 1) + body) == ParsedAck(body)
    ensures msgType == CONFIG ==> ParsedMsg(PutNumber(msgType, 1) + body) == ParsedConfig(body)
  {
    Widths();
    ReadBack(msgType, 1, body);
  }

  /** Messages survive even when followed by other bytes. */
  lemma MsgRoundTrip(m: Msg, rest: seq<byte>)
    ensures |SerializeMsg(m)| == SerializedSize(m)
    ensures ParsedMsg(SerializeMsg(m) + rest) == Ok(Some(m))
  {
    match m {
      case Ack(a) =>
        AckLayout(a, rest);
        AckBody(a, rest);
        TypeByte(ACK, PutNumber(a.frameId, 4) + (PutNumber(a.fragId, 2) + (PutNumber(a.sendTs, 8) + rest)));
      case Config(c) =>
        ConfigLayout(c, rest);
        ConfigBody(c, rest);
        TypeByte(CONFIG, PutNumber(c.width, 2) + (PutNumber(c.height, 2) +
                         (PutNumber(c.frameRate, 2) + (PutNumber(c.targetBitrate, 4) + rest))));
    }
  }

  lemma AckBinary(b: seq<byte>, a: AckMsg) returns (rest: seq<byte>)
    requires ParsedAck(b) == Ok(Some(Ack(a)))
    ensures b == PutNumber(a.frameId, 4) + (PutNumber(a.fragId, 2) + (PutNumber(a.sendTs, 8) + rest))
  {
    var b1 := b[4..];
    var b2 := b1[2..];
    rest := b2[8..];
    WriteBack(b, 4);
    WriteBack(b1, 2);
    WriteBack(b2, 8);
  }

  lemma ConfigBinary(b: seq<byte>, c: ConfigMsg) returns (rest: seq<byte>)
    requires ParsedConfig(b) == Ok(Some(Config(c)))
    ensures b == PutNumber(c.width, 2) + (PutNumber(c.height, 2) +
                 (PutNumber(c.frameRate, 2) + (PutNumber(c.targetBitrate, 4) + rest)))
  {
    var b1 := b[2..];
    var b2 := b1[2..];
    var b3 := b2[2..];
    rest := b3[4..];
    WriteBack(b, 2);
    WriteBack(b1, 2);
    WriteBack(b2, 2);
    WriteBack(b3, 4);
  }

  /** A parsed message re-serializes to exactly the prefix of the input it was read from. */
  lemma MsgBinaryRoundTrip(b: seq<byte>)
    requires ParsedMsg(b).Ok? && ParsedMsg(b).value.Some?
    ensures var m := ParsedMsg(b).value.value;
            SerializedSize(m) <= |b| && SerializeMsg(m) == b[..SerializedSize(m)]
  {
    var m := ParsedMsg(b).value.value;
    var rest: seq<byte>;
    WriteBack(b, 1);
    match m {
      case Ack(a) =>
        rest := AckBinary(b[1..], a);
        AckLayout(a, rest);
      case Config(c) =>
        rest := ConfigBinary(b[1..], c);
        ConfigLayout(c, rest);
    }
    assert b == SerializeMsg(m) + rest;
    MsgRoundTrip(m, rest);
  }

  // ---------- where each field lies ----------

  /** The header of a datagram, field by field: 17 bytes, then the payload. */
  lemma DatagramOffsets(d: Datagram)
    ensures var b := SerializeDatagram(d);
            && |b| == 17 + |d.payload|
            && b[0..4] == PutNumber(d.frameId, 4) && b[4] == d.frameType
            && b[5..7] == PutNumber(d.fragId, 2) && b[7..9] == PutNumber(d.fragCnt, 2)
            && b[9..17] == PutNumber(d.sendTs, 8) && b[17..] == d.payload
  {
    PutNumberBytes(d.frameType, 1, 0);
    Widths();
  }

  /** The same of what is parsed, and nothing shorter is accepted. */
  lemma ParsedDatagramOffsets(b: seq<byte>)
    ensures |b| < 17 <==> ParsedDatagram(b) == None
    ensures |b| >= 17 ==>
              ParsedDatagram(b) ==
              Some(Datagram(Uint32At(b, 0), b[4], Uint16At(b, 5), Uint16At(b, 7), Uint64At(b, 9), b[17..], 0, 0))
  {
    if |b| >= 17 {
      var d := ParsedDatagram(b).value;
      BinaryRoundTrip(b);
      DatagramOffsets(d);
      GetPut(d.frameId, 4);
      GetPut(d.fragId, 2);
      GetPut(d.fragCnt, 2);
      GetPut(d.sendTs, 8);
    }
  }

  /** An acknowledgement is type byte 1 and 14 bytes more. */
  lemma AckOffsets(a: AckMsg)
    ensures var b := SerializeMsg(Ack(a));
            && |b| == SerializedSize(Ack(a)) == 15 && b[0] == 1
            && b[1..5] == PutNumber(a.frameId, 4) && b[5..7] == PutNumber(a.fragId, 2)
            && b[7..15] == PutNumber(a.sendTs, 8)
  {
    var p0, p1, p2, p3 := PutNumber(ACK, 1), PutNumber(a.frameId, 4), PutNumber(a.fragId, 2), PutNumber(a.sendTs, 8);
    PutNumberBytes(ACK, 1, 0);
    Widths();
    Middle(p0, p1, p2 + p3);
    Assoc(p0, p1, p2 + p3);
    Middle(p0 + p1, p2, p3);
    Assoc(p0 + p1, p2, p3);
  }

  /** A configuration is type byte 2 and 10 bytes more. */
  lemma ConfigOffsets(c: ConfigMsg)
    ensures var b := SerializeMsg(Config(c));
            && |b| == SerializedSize(Config(c)) == 11 && b[0] == 2
            && b[1..3] == PutNumber(c.width, 2) && b[3..5] == PutNumber(c.height, 2)
            && b[5..7] == PutNumber(c.frameRate, 2) && b[7..11] == PutNumber(c.targetBitrate, 4)
  {
    var p0, p1, p2 := PutNumber(CONFIG, 1), PutNumber(c.width, 2), PutNumber(c.height, 2);
    var p3, p4 := PutNumber(c.frameRate, 2), PutNumber(c.targetBitrate, 4);
    PutNumberBytes(CONFIG, 1, 0);
    Widths();
    Middle(p0, p1, p2 + (p3 + p4));
    Assoc(p0, p1, p2 + (p3 + p4));
    Middle(p0 + p1, p2, p3 + p4);
    Assoc(p0 + p1, p2, p3 + p4);
    Middle(p0 + p1 + p2, p3, p4);
    Assoc(p0 + p1 + p2, p3, p4);
  }

  /** What any bytes parse to: nothing when empty or of another type; an exception when an ACK or
      CONFIG is cut short; else the message whose fields lie at these offsets. */
  lemma ParsedMsgExactly(b: seq<byte>)
    ensures |b| == 0 || (b[0] != 1 && b[0] != 2) ==> ParsedMsg(b) == Ok(None)
    ensures |b| > 0 && b[0] == 1 && |b| < 15 ==> ParsedMsg(b) == Throw(ReadPastEnd)
    ensures |b| > 0 && b[0] == 2 && |b| < 11 ==> ParsedMsg(b) == Throw(ReadPastEnd)
    ensures |b| >= 15 && b[0] == 1 ==>
              ParsedMsg(b) == Ok(Some(Ack(AckMsg(Uint32At(b, 1), Uint16At(b, 5), Uint64At(b, 7)))))
    ensures |b| >= 11 && b[0] == 2 ==>
              ParsedMsg(b) ==
              Ok(Some(Config(ConfigMsg(Uint16At(b, 1), Uint16At(b, 3), Uint16At(b, 5), Uint32At(b, 7)))))
  {
    if |b| > 0 {
      Widths();
      assert GetNumber(b[..1]) == b[0] by {
        GetNumberBytes(b[..1], 0);
      }
      if b[0] == 1 && |b| >= 15 {
        assert b[1..][..4] == b[1..5] && b[1..][4..][..2] == b[5..7] && b[1..][4..][2..][..8] == b[7..15];
      } else if b[0] == 2 && |b| >= 11 {
        assert b[1..][..2] == b[1..3] && b[1..][2..][..2] == b[3..5] && b[1..][2..][2..][..2] == b[5..7];
        assert b[1..][2..][2..][2..][..4] == b[7..11];
      }
    }
  }

  // ---------- payload limit ----------

  const IP_UDP_HEADERS: nat := 28

  /** The payload limit that setting the MTU leaves. */
  function PayloadLimit(mtu: nat): Result<nat> {
    if mtu > 1500 || mtu < 512 then Throw(BadMtu) else Ok(mtu - IP_UDP_HEADERS - HEADER_SIZE)
  }

  /** MTUs from 512 to 1500 are accepted; 28 bytes of IP and UDP headers and 17 of our own come off. */
  lemma MtusAccepted(mtu: nat)
    ensures PayloadLimit(mtu) == if 512 <= mtu <= 1500 then Ok(mtu - 45) else Throw(BadMtu)
  {
  }

  /** The limit is exact: a datagram's packet fits the MTU just when its payload is within it. */
  lemma PacketFitsMtu(mtu: nat, d: Datagram)
    requires PayloadLimit(mtu).Ok?
    ensures 28 + |SerializeDatagram(d)| <= mtu <==> |d.payload| <= PayloadLimit(mtu).value
    ensures IP_UDP_HEADERS + |SerializeDatagram(d)| <= mtu <==> |d.payload| <= PayloadLimit(mtu).value
    ensures 467 <= PayloadLimit(mtu).value <= 1455
  {
    assert |SerializeDatagram(d)| == HEADER_SIZE + |d.payload|;
  }
}
