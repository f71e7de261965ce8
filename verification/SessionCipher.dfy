/** Session encryption with counter nonces: crates/crypto/src/key_exchange.rs. The AEAD itself is a parameter. */
module SessionCipher {
  import opened Wrappers
  import opened Bytes

  const NONCE_LEN: nat := 12
  const TAG_LEN: nat := 16

  type Nonce = s: seq<Byte> | |s| == 12 witness [0, 0, 0, 0, 0, 0, 0, 0, 0, 0, 0, 0]

  /** An AEAD over some type of keys. */
  datatype Aead<!Key> = Aead(
    seal: (Key, Nonce, seq<Byte>) -> seq<Byte>,
    open: (Key, Nonce, seq<Byte>) -> Option<seq<Byte>>)

  /** All that is assumed of the AEAD: opening undoes sealing, and sealing adds the tag. */
  ghost predicate Lawful<Key(!new)>(aead: Aead<Key>) {
    forall k: Key, n: Nonce, m: seq<Byte> ::
      aead.open(k, n, aead.seal(k, n, m)) == Some(m) && |aead.seal(k, n, m)| == |m| + TAG_LEN
  }

  /** The assumption can be met. */
  lemma LawfulAeadExists<Key(!new)>() returns (aead: Aead<Key>)
    ensures Lawful(aead)
  {
    var tag: seq<Byte> := [0, 0, 0, 0, 0, 0, 0, 0, 0, 0, 0, 0, 0, 0, 0, 0];
    aead := Aead(
      (k: Key, n: Nonce, m: seq<Byte>) => m + tag,
      (k: Key, n: Nonce, c: seq<Byte>) => if |c| < TAG_LEN then None else Some(c[..|c| - TAG_LEN]));
    forall m: seq<Byte>
      ensures (m + tag)[..|m + tag| - TAG_LEN] == m
    {
    }
  }

  /** Four zero octets, then the counter in little endian. */
  function NonceOf(counter: U64): Nonce {
    [0, 0, 0, 0] + LeBytes(counter, 8)
  }

  lemma NonceInjective(c: U64, d: U64)
    requires NonceOf(c) == NonceOf(d)
    ensures c == d
  {
    assert NonceOf(c)[4..] == LeBytes(c, 8) && NonceOf(d)[4..] == LeBytes(d, 8);
    Pow256Values();
    LeBytesInjective(c, d, 8);
  }

  function Packet<Key>(aead: Aead<Key>, key: Key, counter: U64, plaintext: seq<Byte>): seq<Byte> {
    NonceOf(counter) + aead.seal(key, NonceOf(counter), plaintext)
  }

  datatype CryptoError = Decrypt

  function Decrypted<Key>(aead: Aead<Key>, key: Key, packet: seq<Byte>): Result<seq<Byte>, CryptoError> {
    if |packet| < NONCE_LEN + TAG_LEN then Err(Decrypt)
    else
      match aead.open(key, packet[..NONCE_LEN], packet[NONCE_LEN..])
      case Some(m) => Ok(m)
      case None => Err(Decrypt)
  }

  /** Decryption keeps no state: a packet opens under the shared key whatever was received before it. */
  lemma DecryptAfterEncrypt<Key(!new)>(aead: Aead<Key>, key: Key, counter: U64, plaintext: seq<Byte>)
    requires Lawful(aead)
    ensures Decrypted(aead, key, Packet(aead, key, counter, plaintext)) == Ok(plaintext)
    ensures |Packet(aead, key, counter, plaintext)| == |plaintext| + NONCE_LEN + TAG_LEN
  {
    var n: Nonce := NonceOf(counter);
    var sealed := aead.seal(key, n, plaintext);
    assert aead.open(key, n, sealed) == Some(plaintext) && |sealed| == |plaintext| + TAG_LEN;
    assert (n + sealed)[..NONCE_LEN] == n && (n + sealed)[NONCE_LEN..] == sealed;
  }

  // ── Counters ──

  const COUNTERS: int := 0x1_0000_0000_0000_0000

  /** The counter of the k-th packet of a cipher, with `wrapping_add`. */
  function CounterAt(start: U64, k: nat): U64 {
    (start + k) % COUNTERS
  }

  lemma CounterStep(start: U64, k: nat)
    ensures start + k < COUNTERS ==> CounterAt(start, k) == start + k
    ensures start + k == COUNTERS ==> CounterAt(start, k) == 0
    ensures CounterAt(start, k + 1) == if CounterAt(start, k) == COUNTERS - 1 then 0 else CounterAt(start, k) + 1
  {
  }

  /** The nonces of the first n packets. */
  function Nonces(start: U64, n: nat): (s: seq<Nonce>)
    ensures |s| == n && forall k: nat | k < n :: s[k] == NonceOf(CounterAt(start, k))
  {
    if n == 0 then [] else Nonces(start, n - 1) + [NonceOf(CounterAt(start, n - 1))]
  }

  class SessionCipher<!Key> {
    const aead: Aead<Key>
    const key: Key
    const start: U64
    var counter: U64
    /** The nonces handed out so far. */
    ghost var used: seq<Nonce>

    ghost predicate Valid()
      reads this
    {
      used == Nonces(start, |used|) && counter == CounterAt(start, |used|)
    }

    constructor (aead: Aead<Key>, sharedSecret: Key, initCounter: U64)
      ensures Valid() && used == []
      ensures this.aead == aead && key == sharedSecret && start == initCounter
    {
      this.aead, key, start, counter := aead, sharedSecret, initCounter, initCounter;
      used := [];
    }

    method NextNonce() returns (nonce: Nonce)
      requires Valid()
      modifies this
      ensures Valid() && used == old(used) + [nonce] && nonce == NonceOf(CounterAt(start, |old(used)|))
    {
      var c := counter;
      CounterStep(start, |used|);
      counter := if counter == COUNTERS - 1 then 0 else counter + 1;
      var nonceBytes: seq<Byte> := [0, 0, 0, 0];
      nonceBytes := nonceBytes + LeBytes(c, 8);
      nonce := nonceBytes;
      used := used + [nonce];
    }

    method Encrypt(plaintext: seq<Byte>) returns (packet: seq<Byte>)
      requires Valid()
      modifies this
      ensures Valid() && used == old(used) + [NonceOf(CounterAt(start, |old(used)|))]
      ensures packet == Packet(aead, key, CounterAt(start, |old(used)|), plaintext)
    {
      var nonce := NextNonce();
      var ciphertext := aead.seal(key, nonce, plaintext);
      packet := nonce;
      packet := packet + ciphertext;
    }

    method Decrypt(packet: seq<Byte>) returns (r: Result<seq<Byte>, CryptoError>)
      ensures r == Decrypted(aead, key, packet)
    {
      if |packet| < NONCE_LEN + TAG_LEN {
        return Err(CryptoError.Decrypt);
      }
      var nonce, ciphertext := packet[..NONCE_LEN], packet[NONCE_LEN..];
      match aead.open(key, nonce, ciphertext)
      case Some(m) => r := Ok(m);
      case None => r := Err(CryptoError.Decrypt);
    }
  }
}
