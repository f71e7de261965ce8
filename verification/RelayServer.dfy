/** The relay's receive loop and its registry of peers: services/relay/src/main.rs. */
module RelayServer {
  import opened Wrappers
  import opened Bytes
  import opened RelayProto

  /** A socket address; only its identity matters. */
  type Addr = nat

  /** Octets together with the socket they came from or go to. */
  datatype Datagram = Datagram(addr: Addr, bytes: seq<Byte>)

  const RECV_BUFFER: nat := 4096

  /** What a receive into the fixed buffer leaves of a datagram. */
  function Received(bytes: seq<Byte>): (r: seq<Byte>)
    ensures r <= bytes
    ensures |bytes| <= RECV_BUFFER ==> r == bytes
  {
    if |bytes| <= RECV_BUFFER then bytes else bytes[..RECV_BUFFER]
  }

  predicate Registers(bytes: seq<Byte>, id: PeerId) {
    var r := Decode(Received(bytes));
    r.Ok? && r.value.msgType != Data && r.value.senderId == id
  }

  /** The source of the last Hello or Keepalive of a peer, if it ever sent one. */
  function LastRegistration(inputs: seq<Datagram>, id: PeerId): Option<Addr> {
    if inputs == [] then None
    else
      var last := inputs[|inputs| - 1];
      if Registers(last.bytes, id) then Some(last.addr)
      else LastRegistration(inputs[..|inputs| - 1], id)
  }

  ghost predicate RegistryAgrees(peers: map<PeerId, Addr>, inputs: seq<Datagram>) {
    forall id: PeerId ::
      if id in peers then LastRegistration(inputs, id) == Some(peers[id]) else LastRegistration(inputs, id) == None
  }

  /** What the loop body does with one datagram. */
  datatype Reaction = Reaction(peers: map<PeerId, Addr>, sent: Option<Datagram>, exits: bool)

  function React(peers: map<PeerId, Addr>, src: Addr, bytes: seq<Byte>): Reaction {
    match Decode(Received(bytes))
    case Err(_) => Reaction(peers, None, false)
    case Ok(f) =>
      if f.msgType != Data then Reaction(peers[f.senderId := src], None, false)
      else if f.targetId !in peers then Reaction(peers, None, false)
      else
        match Encoded(DataFrame(f.senderId, f.targetId, f.payload))
        case Ok(bytes') => Reaction(peers, Some(Datagram(peers[f.targetId], bytes')), false)
        case Err(_) => Reaction(peers, None, true)
  }

  /** The datagram is Data that cannot be re-encoded, for a registered target: the only way out of the loop. */
  predicate Fatal(inputs: seq<Datagram>, i: nat)
    requires i < |inputs|
  {
    var r := Decode(Received(inputs[i].bytes));
    && r.Ok? && r.value.msgType == Data
    && |r.value.payload| > MAX_PAYLOAD
    && LastRegistration(inputs[..i], r.value.targetId).Some?
  }

  /** None of the first n inputs is fatal. */
  predicate Survives(inputs: seq<Datagram>, n: nat)
    requires n <= |inputs|
  {
    n == 0 || (Survives(inputs, n - 1) && !Fatal(inputs, n - 1))
  }

  /** The datagrams sent for a series of inputs: each Data frame whose target had registered before it. */
  function Forwards(inputs: seq<Datagram>): seq<Datagram> {
    if inputs == [] then []
    else
      var before := inputs[..|inputs| - 1];
      var r := Decode(Received(inputs[|inputs| - 1].bytes));
      if r.Err? || r.value.msgType != Data || |r.value.payload| > MAX_PAYLOAD then Forwards(before)
      else
        match LastRegistration(before, r.value.targetId)
        case None => Forwards(before)
        case Some(dst) => Forwards(before) + [Datagram(dst, Wire(r.value))]
  }

  class RelayServer {
    var peers: map<PeerId, Addr>
    var outbox: seq<Datagram>

    constructor ()
      ensures peers == map[] && outbox == []
    {
      peers, outbox := map[], [];
    }

    /** One turn of the loop; `exits` when the error of `encode` is propagated out of `main`. */
    method Handle(src: Addr, bytes: seq<Byte>) returns (exits: bool)
      modifies this
      ensures var r := React(old(peers), src, bytes);
              && peers == r.peers
              && outbox == old(outbox) + (if r.sent.Some? then [r.sent.value] else [])
              && exits == r.exits
    {
      exits := false;
      var decoded := Decode(Received(bytes));
      if decoded.Err? {
        return;
      }
      var frame := decoded.value;
      match frame.msgType {
        case Hello =>
          peers := peers[frame.senderId := src];
        case Data =>
          if frame.targetId in peers {
            var targetAddr := peers[frame.targetId];
            var encoded := Encode(DataFrame(frame.senderId, frame.targetId, frame.payload));
            if encoded.Err? {
              return true;
            }
            outbox := outbox + [Datagram(targetAddr, encoded.value)];
          }
        case Keepalive =>
          peers := peers[frame.senderId := src];
      }
    }

    /** The whole loop over the datagrams that arrive, from the empty registry. */
    method Serve(inputs: seq<Datagram>) returns (handled: nat, exited: bool)
      requires peers == map[] && outbox == []
      modifies this
      ensures handled <= |inputs|
      ensures Survives(inputs, handled)
      ensures if exited then handled < |inputs| && Fatal(inputs, handled) else handled == |inputs|
      ensures RegistryAgrees(peers, inputs[..handled])
      ensures outbox == Forwards(inputs[..handled])
    {
      handled, exited := 0, false;
      while handled < |inputs|
        invariant handled <= |inputs|
        invariant Survives(inputs, handled)
        invariant RegistryAgrees(peers, inputs[..handled])
        invariant outbox == Forwards(inputs[..handled])
      {
        ReactMeaning(peers, inputs, handled);
        ghost var r := React(peers, inputs[handled].addr, inputs[handled].bytes);
        exited := Handle(inputs[handled].addr, inputs[handled].bytes);
        if exited {
          return;
        }
        handled := handled + 1;
      }
      assert inputs[..handled] == inputs;
    }
  }

  /** One reaction, in terms of the inputs alone: the registry keeps meaning "last Hello or Keepalive",
      the datagram sent is the next forward, and the loop ends exactly on a fatal input. */
  lemma ReactMeaning(peers: map<PeerId, Addr>, inputs: seq<Datagram>, i: nat)
    requires i < |inputs| && RegistryAgrees(peers, inputs[..i])
    ensures var r := React(peers, inputs[i].addr, inputs[i].bytes);
            && (r.exits <==> Fatal(inputs, i))
            && (r.exits ==> r.peers == peers && r.sent == None)
            && RegistryAgrees(r.peers, inputs[..i + 1])
            && Forwards(inputs[..i + 1]) == Forwards(inputs[..i]) + (if r.sent.Some? then [r.sent.value] else [])
  {
    assert inputs[..i + 1][..i] == inputs[..i];
    var decoded := Decode(Received(inputs[i].bytes));
    if decoded.Ok? {
      var f := decoded.value;
      assert f.msgType == Data ==> DataFrame(f.senderId, f.targetId, f.payload) == f;
    }
  }

  /** The loop never ends unless some input is fatal, and a fatal input is never smaller than 36 + 2049 octets. */
  lemma FatalInputsAreOversized(inputs: seq<Datagram>, i: nat)
    requires i < |inputs| && Fatal(inputs, i)
    ensures |inputs[i].bytes| > HEADER_LEN + MAX_PAYLOAD
    ensures forall f: RelayFrame :: Encoded(f) != Ok(inputs[i].bytes)
  {
    var d := Received(inputs[i].bytes);
    EncodeAfterDecode(d);
  }

  // ── Transparency ──

  /** Every input is the encoding of some frame. */
  ghost predicate AllEncoded(inputs: seq<Datagram>) {
    forall i: nat | i < |inputs| :: IsEncoding(inputs[i].bytes)
  }

  ghost predicate IsEncoding(bytes: seq<Byte>) {
    exists f: RelayFrame :: Encoded(f) == Ok(bytes)
  }

  /** The inputs that are Data for a registered target, untouched but for the address. */
  function Relayed(inputs: seq<Datagram>): seq<Datagram> {
    if inputs == [] then []
    else
      var before, last := inputs[..|inputs| - 1], inputs[|inputs| - 1];
      var r := Decode(last.bytes);
      if r.Ok? && r.value.msgType == Data && LastRegistration(before, r.value.targetId).Some?
      then Relayed(before) + [last.(addr := LastRegistration(before, r.value.targetId).value)]
      else Relayed(before)
  }

  /** An encoded frame fits the receive buffer and comes back out of the codec octet for octet. */
  lemma EncodingSurvivesRelay(bytes: seq<Byte>)
    requires IsEncoding(bytes)
    ensures |bytes| <= HEADER_LEN + MAX_PAYLOAD <= RECV_BUFFER && Received(bytes) == bytes
    ensures Decode(bytes).Ok? && Encoded(Decode(bytes).value) == Ok(bytes)
  {
    var f :| Encoded(f) == Ok(bytes);
    DecodesIffPrinted(bytes, f);
  }

  lemma {:induction false} EncodedInputsSurvive(inputs: seq<Datagram>, n: nat)
    requires AllEncoded(inputs) && n <= |inputs|
    ensures Survives(inputs, n)
  {
    if n == 0 {
    } else {
      EncodedInputsSurvive(inputs, n - 1);
      EncodingSurvivesRelay(inputs[n - 1].bytes);
    }
  }

  /** Fed only encoded frames, the relay forwards the very octets it received and never leaves its loop. */
  lemma {:induction false} Transparency(inputs: seq<Datagram>)
    requires AllEncoded(inputs)
    ensures Forwards(inputs) == Relayed(inputs)
    ensures Survives(inputs, |inputs|)
  {
    EncodedInputsSurvive(inputs, |inputs|);
    if inputs == [] {
    } else {
      var before, last := inputs[..|inputs| - 1], inputs[|inputs| - 1];
      forall i: nat | i < |before|
        ensures IsEncoding(before[i].bytes)
      {
        assert before[i] == inputs[i];
      }
      Transparency(before);
      EncodingSurvivesRelay(last.bytes);
    }
  }
}
