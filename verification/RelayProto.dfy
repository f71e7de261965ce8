/** The relay frame format: crates/relay-proto/src/lib.rs. */
module RelayProto {
  import opened Wrappers
  import opened Bytes

  const PROTO_VERSION: Byte := 0x01
  const MAX_PAYLOAD: nat := 2048
  const HEADER_LEN: nat := 1 + 1 + 16 + 16 + 2

  /** A peer identifier is a UUID: 16 octets. */
  type PeerId = s: seq<Byte> | |s| == 16 witness NIL_ID

  const NIL_ID: seq<Byte> := [0, 0, 0, 0, 0, 0, 0, 0, 0, 0, 0, 0, 0, 0, 0, 0]

  datatype MsgType = Hello | Data | Keepalive {
    function ToByte(): Byte {
      match this
      case Hello => 0x01
      case Data => 0x02
      case Keepalive => 0x03
    }

    static function FromByte(b: Byte): Option<MsgType> {
      match b
      case 0x01 => Some(Hello)
      case 0x02 => Some(Data)
      case 0x03 => Some(Keepalive)
      case _ => None
    }
  }

  datatype ProtoError =
    | FrameTooShort(len: nat)
    | UnknownVersion(version: Byte)
    | UnknownType(code: Byte)
    | PayloadTooLarge(len: nat)

  datatype RelayFrame = RelayFrame(senderId: PeerId, targetId: PeerId, msgType: MsgType, payload: seq<Byte>)

  function HelloFrame(senderId: PeerId): RelayFrame {
    RelayFrame(senderId, NIL_ID, Hello, [])
  }

  function DataFrame(senderId: PeerId, targetId: PeerId, payload: seq<Byte>): RelayFrame {
    RelayFrame(senderId, targetId, Data, payload)
  }

  function KeepaliveFrame(senderId: PeerId): RelayFrame {
    RelayFrame(senderId, NIL_ID, Keepalive, [])
  }

  /** The octets of a frame, before any size check. */
  function Wire(f: RelayFrame): (w: seq<Byte>)
    ensures |w| == HEADER_LEN + |f.payload|
  {
    [PROTO_VERSION, f.msgType.ToByte()] + f.senderId + f.targetId + BeBytes(|f.payload|, 2) + f.payload
  }

  /** What encoding a frame yields: its octets, unless the payload is over the limit. */
  function Encoded(f: RelayFrame): Result<seq<Byte>, ProtoError> {
    if |f.payload| > MAX_PAYLOAD then Err(PayloadTooLarge(|f.payload|)) else Ok(Wire(f))
  }

  /** `encode` fills a buffer field by field. */
  method Encode(f: RelayFrame) returns (r: Result<seq<Byte>, ProtoError>)
    ensures r == Encoded(f)
  {
    if |f.payload| > MAX_PAYLOAD {
      return Err(PayloadTooLarge(|f.payload|));
    }
    var buf: seq<Byte> := [];
    buf := buf + [PROTO_VERSION];
    buf := buf + [f.msgType.ToByte()];
    buf := buf + f.senderId;
    buf := buf + f.targetId;
    buf := buf + BeBytes(|f.payload|, 2);
    buf := buf + f.payload;
    assert buf == Wire(f);
    r := Ok(buf);
  }

  function Decode(data: seq<Byte>): Result<RelayFrame, ProtoError> {
    if |data| < HEADER_LEN then Err(FrameTooShort(|data|))
    else if data[0] != PROTO_VERSION then Err(UnknownVersion(data[0]))
    else if MsgType.FromByte(data[1]).None? then Err(UnknownType(data[1]))
    else
      var payloadEnd := HEADER_LEN + BeValue(data[34..36]);
      if |data| < payloadEnd then Err(FrameTooShort(|data|))
      else Ok(RelayFrame(data[2..18], data[18..34], MsgType.FromByte(data[1]).value, data[HEADER_LEN..payloadEnd]))
  }

  /** Where the fields of a frame lie in any datagram that starts with it. */
  lemma WireLayout(f: RelayFrame, d: seq<Byte>)
    requires |f.payload| < 0x1_0000 && Wire(f) <= d
    ensures d[0] == PROTO_VERSION && d[1] == f.msgType.ToByte()
    ensures d[2..18] == f.senderId && d[18..34] == f.targetId
    ensures BeValue(d[34..36]) == |f.payload|
    ensures d[HEADER_LEN..HEADER_LEN + |f.payload|] == f.payload
  {
    var w := Wire(f);
    assert w == d[..|w|];
    assert w[2..18] == f.senderId && w[18..34] == f.targetId;
    assert w[34..36] == BeBytes(|f.payload|, 2) && w[36..] == f.payload;
    Pow256Values();
    BeValueOfBytes(|f.payload|, 2);
    assert d[34..36] == w[34..36];
  }

  /** Decoding is exactly the inverse of printing: a datagram decodes to f if and only if f is printed at its start. */
  lemma DecodesIffPrinted(d: seq<Byte>, f: RelayFrame)
    ensures Decode(d) == Ok(f) <==> |f.payload| < 0x1_0000 && Wire(f) <= d
  {
    Pow256Values();
    if |f.payload| < 0x1_0000 && Wire(f) <= d {
      WireLayout(f, d);
    }
    if Decode(d) == Ok(f) {
      BeBytesOfValue(d[34..36]);
      assert Wire(f) == d[..HEADER_LEN + |f.payload|];
    }
  }

  /** Round trip: an encoded frame followed by anything decodes to the frame. */
  lemma DecodeAfterEncode(f: RelayFrame, junk: seq<Byte>)
    requires Encoded(f).Ok?
    ensures Decode(Encoded(f).value + junk) == Ok(f)
  {
    DecodesIffPrinted(Wire(f) + junk, f);
  }

  /** Converse round trip: re-encoding a decoded frame gives the exact part of the datagram that the frame occupies,
      and is refused exactly when the payload is over the limit. */
  lemma EncodeAfterDecode(d: seq<Byte>)
    requires Decode(d).Ok?
    ensures var f := Decode(d).value;
            Encoded(f) == if |f.payload| <= MAX_PAYLOAD then Ok(d[..HEADER_LEN + |f.payload|])
                          else Err(PayloadTooLarge(|f.payload|))
    ensures HEADER_LEN + |Decode(d).value.payload| <= |d|
  {
    var f := Decode(d).value;
    DecodesIffPrinted(d, f);
    assert Wire(f) == d[..|Wire(f)|];
  }

  /** A datagram is rejected exactly when no frame is printed at its start. */
  lemma RejectsIffNothingPrinted(d: seq<Byte>)
    ensures Decode(d).Err? <==> forall f: RelayFrame :: |f.payload| < 0x1_0000 ==> !(Wire(f) <= d)
  {
    if Decode(d).Err? {
      forall f: RelayFrame | |f.payload| < 0x1_0000
        ensures !(Wire(f) <= d)
      {
        DecodesIffPrinted(d, f);
      }
    } else {
      DecodesIffPrinted(d, Decode(d).value);
    }
  }
}
