/** The client end of the relay protocol: crates/tunnel/src/relay.rs. */
module RelayClient {
  import opened Wrappers
  import opened Bytes
  import opened RelayProto
  import opened RelayServer

  /** The identities a client was registered with. */
  datatype Identity = Identity(ourId: PeerId, peerId: PeerId)

  /** The filter of `recv`: a Data frame whose sender is the peer yields its payload; the target is not looked at. */
  function Accepts(who: Identity, bytes: seq<Byte>): Option<seq<Byte>> {
    match Decode(Received(bytes))
    case Err(_) => None
    case Ok(f) => if f.msgType == Data && f.senderId == who.peerId then Some(f.payload) else None
  }

  class RelayClient {
    const addr: Addr
    const relayAddr: Addr
    const ourId: PeerId
    const peerId: PeerId
    /** Datagrams handed to the socket, in order. */
    var outbox: seq<Datagram>
    /** Datagrams that wait in the socket. */
    var inbox: seq<seq<Byte>>

    function Who(): Identity {
      Identity(ourId, peerId)
    }

    constructor Register(addr: Addr, relayAddr: Addr, ourId: PeerId, peerId: PeerId)
      ensures this.addr == addr && this.relayAddr == relayAddr && Who() == Identity(ourId, peerId)
      ensures inbox == [] && |outbox| == 1 && outbox[0].addr == relayAddr
      ensures Decode(outbox[0].bytes) == Ok(HelloFrame(ourId)) && IsEncoding(outbox[0].bytes)
    {
      this.addr, this.relayAddr, this.ourId, this.peerId := addr, relayAddr, ourId, peerId;
      var encoded := Encode(HelloFrame(ourId));
      outbox := [Datagram(relayAddr, encoded.value)];
      inbox := [];
      new;
      DecodesIffPrinted(encoded.value, HelloFrame(ourId));
    }

    /** None is the panic of `expect` on a payload over the limit; nothing is sent then. */
    method Send(encryptedData: seq<Byte>) returns (sent: Option<nat>)
      modifies this`outbox
      ensures sent.None? <==> |encryptedData| > MAX_PAYLOAD
      ensures sent.None? ==> outbox == old(outbox)
      ensures sent.Some? ==>
                exists d: Datagram ::
                  && outbox == old(outbox) + [d] && d.addr == relayAddr && sent.value == |d.bytes|
                  && Decode(d.bytes) == Ok(DataFrame(ourId, peerId, encryptedData)) && IsEncoding(d.bytes)
    {
      var frame := DataFrame(ourId, peerId, encryptedData);
      var encoded := Encode(frame);
      if encoded.Err? {
        return None;
      }
      var d := Datagram(relayAddr, encoded.value);
      outbox := outbox + [d];
      sent := Some(|encoded.value|);
      DecodesIffPrinted(d.bytes, frame);
    }

    method Keepalive()
      modifies this`outbox
      ensures exists d: Datagram ::
                && outbox == old(outbox) + [d] && d.addr == relayAddr
                && Decode(d.bytes) == Ok(KeepaliveFrame(ourId)) && IsEncoding(d.bytes)
    {
      var frame := KeepaliveFrame(ourId);
      var encoded := Encode(frame);
      var d := Datagram(relayAddr, encoded.value);
      outbox := outbox + [d];
      DecodesIffPrinted(d.bytes, frame);
    }

    /** Takes datagrams off the socket until one passes the filter; None stands for waiting forever. */
    method Recv() returns (r: Option<(seq<Byte>, PeerId)>)
      modifies this`inbox
      ensures r.Some? ==>
                exists k: nat | k < |old(inbox)| ::
                  && Accepts(Who(), old(inbox)[k]) == Some(r.value.0) && r.value.1 == peerId
                  && (forall i: nat | i < k :: Accepts(Who(), old(inbox)[i]) == None)
                  && inbox == old(inbox)[k + 1..]
      ensures r.None? ==> inbox == [] && forall i: nat | i < |old(inbox)| :: Accepts(Who(), old(inbox)[i]) == None
    {
      ghost var k: nat := 0;
      while inbox != []
        invariant k <= |old(inbox)| && inbox == old(inbox)[k..]
        invariant forall i: nat | i < k :: Accepts(Who(), old(inbox)[i]) == None
        decreases |inbox|
      {
        var buf := Received(inbox[0]);
        assert inbox[0] == old(inbox)[k];
        inbox := inbox[1..];
        var decoded := Decode(buf);
        if decoded.Ok? {
          var frame := decoded.value;
          if frame.msgType == Data && frame.senderId == peerId {
            return Some((frame.payload, frame.senderId));
          }
        }
        k := k + 1;
      }
      r := None;
    }
  }
}
