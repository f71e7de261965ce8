/** The session cipher carried over the relay, as crates/tunnel/tests/e2e_interop.rs composes the two: payloads are
    packets of the cipher of their session, and decryption happens after `recv`. Sessions may also send raw payloads,
    as the daemon and the mobile engine do. Composes SessionCipher, RelayProto and RelayNetwork. */
module SecureRelay {
  import opened Wrappers
  import opened Bytes
  import opened RelayProto
  import opened RelayServer
  import opened RelayClient
  import opened SessionCipher
  import opened RelayNetwork

  /** The AEAD, the shared secret each pair of ids has agreed on, and the first counter of each session. */
  datatype Crypto<!Key> = Crypto(aead: Aead<Key>, keys: (PeerId, PeerId) -> Key, start: Addr -> U64)

  /** Both ends of a key exchange derive the same secret. */
  ghost predicate Agreed<Key(!new)>(c: Crypto<Key>) {
    && Lawful(c.aead)
    && forall p: PeerId, q: PeerId :: c.keys(p, q) == c.keys(q, p)
  }

  /** SendSealed encrypts and sends; everything else happens below the cipher. */
  datatype SecureAction =
    | SendSealed(addr: Addr, plaintext: seq<Byte>)
    | Transport(act: Action)

  function SealedBefore(run: seq<SecureAction>, a: Addr): nat {
    if run == [] then 0
    else
      var last := run[|run| - 1];
      SealedBefore(run[..|run| - 1], a) + (if last.SendSealed? && last.addr == a then 1 else 0)
  }

  function KeyOf<Key>(c: Crypto<Key>, who: Identity): Key {
    c.keys(who.ourId, who.peerId)
  }

  /** The packet the next SendSealed of a session produces. */
  function NextPacket<Key>(c: Crypto<Key>, who: Identity, run: seq<SecureAction>, a: Addr, m: seq<Byte>): seq<Byte> {
    Packet(c.aead, KeyOf(c, who), CounterAt(c.start(a), SealedBefore(run, a)), m)
  }

  /** The run of the network below. */
  function Lower<Key>(c: Crypto<Key>, run: seq<SecureAction>): (acts: seq<Action>)
    ensures |acts| == |run|
  {
    if run == [] then []
    else
      var before, last := run[..|run| - 1], run[|run| - 1];
      var acts := Lower(c, before);
      match last
      case Transport(act) => acts + [act]
      case SendSealed(a, m) =>
        var n := Exec(acts);
        acts + [if a in n.sessions then Send(a, NextPacket(c, n.sessions[a].who, before, a, m)) else Send(a, [])]
  }

  lemma {:induction false} LowerPrefix<Key>(c: Crypto<Key>, run: seq<SecureAction>, i: nat)
    requires i <= |run|
    ensures Lower(c, run[..i]) == Lower(c, run)[..i]
  {
    if i == |run| {
      assert run[..i] == run;
    } else {
      var before := run[..|run| - 1];
      LowerPrefix(c, before, i);
      assert before[..i] == run[..i];
    }
  }

  /** A send in the lowered run is a raw send, or comes from a SendSealed and carries its packet. */
  lemma LoweredSend<Key>(c: Crypto<Key>, run: seq<SecureAction>, j: nat, who: Identity, payload: seq<Byte>)
    requires j < |run| && SendsAs(Lower(c, run), j, who, payload)
    ensures run[j].Transport? ==> run[j].act == Lower(c, run)[j]
    ensures run[j].SendSealed? ==> run[j].addr == Lower(c, run)[j].addr
    ensures run[j].SendSealed? ==> payload == NextPacket(c, who, run[..j], run[j].addr, run[j].plaintext)
  {
    LowerPrefix(c, run, j);
    LowerPrefix(c, run, j + 1);
    assert run[..j + 1][..j] == run[..j];
    assert Lower(c, run)[j] == Lower(c, run[..j + 1])[j];
  }

  /** Action j of the secure run happened, and sealed m in an open session with the given identities. */
  predicate SealsAs<Key>(c: Crypto<Key>, run: seq<SecureAction>, j: nat, who: Identity, m: seq<Byte>)
    requires j < |run|
  {
    && run[j].SendSealed? && run[j].plaintext == m
    && Lower(c, run)[j].Send? && SendsAs(Lower(c, run), j, who, Lower(c, run)[j].payload)
  }

  /** Action j of the secure run is a raw `send` of the payload by a session with the given identities. */
  predicate SendsRaw<Key>(c: Crypto<Key>, run: seq<SecureAction>, j: nat, who: Identity, payload: seq<Byte>)
    requires j < |run|
  {
    run[j].Transport? && SendsAs(Lower(c, run), j, who, payload)
  }

  /** Over every run: a payload that `recv` returns was sent raw by the mirrored session earlier, or decrypts with the
      receiver's own key to a plaintext that the mirrored session sealed earlier. */
  lemma EveryArrival<Key(!new)>(c: Crypto<Key>, run: seq<SecureAction>, i: nat)
    requires Agreed(c) && i < |run| && Returns(Lower(c, run), i).Some?
    ensures var acts := Lower(c, run);
            var who := Exec(acts[..i]).sessions[acts[i].datagram.addr].who;
            var mirror, payload := Identity(who.peerId, who.ourId), Returns(acts, i).value;
            || (exists j: nat | j < i :: SendsRaw(c, run, j, mirror, payload))
            || (exists j: nat, m: seq<Byte> | j < i ::
                  SealsAs(c, run, j, mirror, m) && Decrypted(c.aead, KeyOf(c, who), payload) == Ok(m))
  {
    var acts := Lower(c, run);
    var who := Exec(acts[..i]).sessions[acts[i].datagram.addr].who;
    var mirror, payload := Identity(who.peerId, who.ourId), Returns(acts, i).value;
    RecvIntegrity(acts, i);
    var j: nat :| j < i && SendsAs(acts, j, mirror, payload);
    LoweredSend(c, run, j, mirror, payload);
    if run[j].Transport? {
      assert SendsRaw(c, run, j, mirror, payload);
    } else {
      var a, m := run[j].addr, run[j].plaintext;
      assert SealsAs(c, run, j, mirror, m);
      assert KeyOf(c, mirror) == KeyOf(c, who);
      DecryptAfterEncrypt(c.aead, KeyOf(c, who), CounterAt(c.start(a), SealedBefore(run[..j], a)), m);
    }
  }

  /** End to end, over every run with loss, duplication and reordering, when the mirrored session never sent anything
      raw, whatever other sessions do: each payload `recv` returns decrypts, with the receiver's own key, to a plaintext
      that the mirrored session sealed earlier. */
  lemma EveryArrivalDecrypts<Key(!new)>(c: Crypto<Key>, run: seq<SecureAction>, i: nat)
    requires Agreed(c) && i < |run| && Returns(Lower(c, run), i).Some?
    requires var acts := Lower(c, run);
             var who := Exec(acts[..i]).sessions[acts[i].datagram.addr].who;
             forall j: nat, p: seq<Byte> | j < i :: !SendsRaw(c, run, j, Identity(who.peerId, who.ourId), p)
    ensures var acts := Lower(c, run);
            var who := Exec(acts[..i]).sessions[acts[i].datagram.addr].who;
            exists j: nat, m: seq<Byte> | j < i ::
              && SealsAs(c, run, j, Identity(who.peerId, who.ourId), m)
              && Decrypted(c.aead, KeyOf(c, who), Returns(acts, i).value) == Ok(m)
  {
    EveryArrival(c, run, i);
  }

  // ── Raw payloads ──

  /** A run with nothing sealed. */
  function AllTransport(acts: seq<Action>): seq<SecureAction> {
    if acts == [] then [] else AllTransport(acts[..|acts| - 1]) + [Transport(acts[|acts| - 1])]
  }

  lemma {:induction false} LowerAllTransport<Key>(c: Crypto<Key>, acts: seq<Action>)
    ensures Lower(c, AllTransport(acts)) == acts
  {
    if acts == [] {
    } else {
      var before, run := acts[..|acts| - 1], AllTransport(acts);
      LowerAllTransport(c, before);
      assert run[..|run| - 1] == AllTransport(before) && acts == before + [acts[|acts| - 1]];
    }
  }

  /** Without raw senders excluded, what arrives need not decrypt: a payload of fewer than 28 octets that the peer sends
      raw, as the applications do, is returned by `recv` and cannot be decrypted. */
  lemma RawPayloadArrives<Key(!new)>(c: Crypto<Key>, id: PeerId, p: PeerId, payload: seq<Byte>)
    requires |payload| < NONCE_LEN + TAG_LEN
    ensures var run := AllTransport(Delivery(id, p, payload));
            && |run| == 6 && Returns(Lower(c, run), 5) == Some(payload)
            && Decrypted(c.aead, KeyOf(c, Identity(id, p)), payload) == Err(Decrypt)
  {
    LowerAllTransport(c, Delivery(id, p, payload));
    DeliveryReturns(id, p, payload);
  }

  /** A sealed packet fits a relay frame exactly when the plaintext has at most 2020 octets. */
  lemma FitsIffAtMost2020<Key(!new)>(aead: Aead<Key>, key: Key, counter: U64, m: seq<Byte>, s: PeerId, t: PeerId)
    requires Lawful(aead)
    ensures Encoded(DataFrame(s, t, Packet(aead, key, counter, m))).Ok? <==> |m| <= 2020
  {
    DecryptAfterEncrypt(aead, key, counter, m);
  }

  /** The whole path of one packet: encrypt, frame, relay hop, filter and decrypt give the plaintext back, for any
      plaintext that fits and whatever else the relay has registered. */
  lemma PathOfOnePacket<Key(!new)>(c: Crypto<Key>, who: Identity, counter: U64, m: seq<Byte>,
                                   peers: map<PeerId, Addr>, src: Addr)
    requires Agreed(c) && |m| <= 2020 && who.peerId in peers
    ensures var packet := Packet(c.aead, KeyOf(c, who), counter, m);
            var bytes := Wire(DataFrame(who.ourId, who.peerId, packet));
            var mirror := Identity(who.peerId, who.ourId);
            && React(peers, src, bytes) == Reaction(peers, Some(Datagram(peers[who.peerId], bytes)), false)
            && Accepts(mirror, bytes) == Some(packet)
            && Decrypted(c.aead, KeyOf(c, mirror), packet) == Ok(m)
  {
    var packet := Packet(c.aead, KeyOf(c, who), counter, m);
    DecryptAfterEncrypt(c.aead, KeyOf(c, who), counter, m);
    var f := DataFrame(who.ourId, who.peerId, packet);
    assert Encoded(f) == Ok(Wire(f));
    EncodingSurvivesRelay(Wire(f));
    DecodesIffPrinted(Wire(f), f);
  }
}
