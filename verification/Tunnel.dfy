/** The two nonce spaces of an encrypted tunnel: crates/tunnel/src/lib.rs. */
module Tunnel {
  import opened Wrappers
  import opened Bytes
  import opened SessionCipher

  const RESPONDER_TX_OFFSET: U64 := 0x1_0000_0000
  const MAX_PACKET: nat := 65536

  type Addr = nat

  /** A packet handed to the socket, with its destination. */
  datatype Sent = Sent(peer: Addr, packet: seq<Byte>)

  class Tunnel<!Key> {
    const tx: SessionCipher<Key>
    const rx: SessionCipher<Key>
    /** What was handed to the socket, in order. */
    var outbox: seq<Sent>

    ghost predicate Valid()
      reads this, tx
    {
      tx.Valid() && tx.aead == rx.aead && tx.key == rx.key
    }

    constructor BindWithNonce(aead: Aead<Key>, sharedSecret: Key, txNonceStart: U64)
      ensures Valid() && fresh(tx) && tx.used == [] && outbox == []
      ensures tx.start == txNonceStart && tx.aead == aead && tx.key == sharedSecret
    {
      outbox := [];
      tx := new SessionCipher(aead, sharedSecret, txNonceStart);
      rx := new SessionCipher(aead, sharedSecret, 0);
    }

    static method BindInitiator(aead: Aead<Key>, sharedSecret: Key) returns (t: Tunnel<Key>)
      ensures fresh(t) && t.Valid() && fresh(t.tx) && t.tx.used == [] && t.outbox == []
      ensures t.tx.start == 0 && t.tx.aead == aead && t.tx.key == sharedSecret
    {
      t := new Tunnel.BindWithNonce(aead, sharedSecret, 0);
    }

    static method BindResponder(aead: Aead<Key>, sharedSecret: Key) returns (t: Tunnel<Key>)
      ensures fresh(t) && t.Valid() && fresh(t.tx) && t.tx.used == [] && t.outbox == []
      ensures t.tx.start == RESPONDER_TX_OFFSET && t.tx.aead == aead && t.tx.key == sharedSecret
    {
      t := new Tunnel.BindWithNonce(aead, sharedSecret, RESPONDER_TX_OFFSET);
    }

    /** Encrypts and hands the packet to the socket; returns the number of plaintext octets. */
    method SendTo(plaintext: seq<Byte>, peer: Addr) returns (n: nat)
      requires Valid()
      modifies tx, this`outbox
      ensures Valid() && n == |plaintext|
      ensures tx.used == Nonces(tx.start, |old(tx.used)| + 1)
      ensures outbox == old(outbox)
                        + [Sent(peer, Packet(tx.aead, tx.key, CounterAt(tx.start, |old(tx.used)|), plaintext))]
    {
      var packet := tx.Encrypt(plaintext);
      outbox := outbox + [Sent(peer, packet)];
      n := |plaintext|;
    }

    /** Decrypts what a receive into the fixed buffer leaves of a datagram; a success comes with its sender. */
    method RecvFrom(datagram: seq<Byte>, from: Addr) returns (r: Result<(seq<Byte>, Addr), CryptoError>)
      requires Valid()
      ensures var received := if |datagram| <= MAX_PACKET then datagram else datagram[..MAX_PACKET];
              match Decrypted(tx.aead, tx.key, received)
              case Ok(plaintext) => r == Ok((plaintext, from))
              case Err(e) => r == Err(e)
    {
      var buf := if |datagram| <= MAX_PACKET then datagram else datagram[..MAX_PACKET];
      var decrypted := rx.Decrypt(buf);
      match decrypted
      case Ok(plaintext) => r := Ok((plaintext, from));
      case Err(e) => r := Err(e);
    }
  }

  ghost predicate AllDistinct<T>(s: seq<T>) {
    forall i, j | 0 <= i < j < |s| :: s[i] != s[j]
  }

  lemma DistinctWithinBounds(a: nat, b: nat)
    requires a <= RESPONDER_TX_OFFSET && b <= COUNTERS - RESPONDER_TX_OFFSET
    ensures AllDistinct(Nonces(0, a) + Nonces(RESPONDER_TX_OFFSET, b))
  {
    var all := Nonces(0, a) + Nonces(RESPONDER_TX_OFFSET, b);
    forall i, j | 0 <= i < j < |all|
      ensures all[i] != all[j]
    {
      var c: U64 := if i < a then i else RESPONDER_TX_OFFSET + (i - a);
      var d: U64 := if j < a then j else RESPONDER_TX_OFFSET + (j - a);
      NonceAt(a, b, i);
      NonceAt(a, b, j);
      if all[i] == all[j] {
        NonceInjective(c, d);
      }
    }
  }

  lemma NonceAt(a: nat, b: nat, i: nat)
    requires i < a ==> i < COUNTERS
    requires a <= i < a + b ==> RESPONDER_TX_OFFSET + (i - a) < COUNTERS
    requires i < a + b
    ensures (Nonces(0, a) + Nonces(RESPONDER_TX_OFFSET, b))[i]
         == NonceOf(if i < a then i else RESPONDER_TX_OFFSET + (i - a))
  {
    if i < a {
      CounterStep(0, i);
    } else {
      CounterStep(RESPONDER_TX_OFFSET, i - a);
    }
  }

  /** The nonces both directions use under the one shared key never repeat, if and only if the initiator sends at most
      2^32 packets and the responder at most 2^64 - 2^32. */
  lemma NoncesDisjoint(a: nat, b: nat)
    requires a >= 1 && b >= 1
    ensures AllDistinct(Nonces(0, a) + Nonces(RESPONDER_TX_OFFSET, b))
       <==> a <= RESPONDER_TX_OFFSET && b <= COUNTERS - RESPONDER_TX_OFFSET
  {
    var all := Nonces(0, a) + Nonces(RESPONDER_TX_OFFSET, b);
    if a <= RESPONDER_TX_OFFSET && b <= COUNTERS - RESPONDER_TX_OFFSET {
      DistinctWithinBounds(a, b);
    } else if a > RESPONDER_TX_OFFSET {
      NonceAt(a, b, RESPONDER_TX_OFFSET);
      NonceAt(a, b, a);
      assert all[RESPONDER_TX_OFFSET] == all[a];
    } else {
      var k := COUNTERS - RESPONDER_TX_OFFSET;
      CounterStep(RESPONDER_TX_OFFSET, k);
      NonceAt(a, b, 0);
      assert all[0] == all[a + k];
    }
  }
}
