/** The reconnect queue of the mobile engine: apps/mobile/src/engine.rs. */
module MobileEngine {
  import opened Wrappers

  type Ip = nat
  type PeerKey = nat

  /** A packet with its destination; its octets do not matter here. */
  datatype Packet = Packet(id: nat, dst: Ip)

  datatype ConnState = Connected | Reconnecting

  const MAX_QUEUED_PACKETS: nat := 256

  /** One entry of the peer list: the address parses or not, and registering with the relay works or not. */
  datatype Listed = Listed(key: PeerKey, vip: Option<Ip>, registers: bool)

  /** What fetching the peer list comes to. */
  datatype Fetch = Failed | Got(entries: seq<Listed>)

  /** Everything that was ever given to the engine, by fate and in order. */
  datatype History = History(
    submitted: seq<Packet>, // given to send_to_peer
    sent: seq<Packet>,      // handed to a relay client
    overflow: seq<Packet>,  // refused because the queue was full
    failed: seq<Packet>,    // no route, or the send failed
    outage: seq<Packet>)    // submitted since the state last went from Connected to Reconnecting

  datatype Engine = Engine(peers: map<PeerKey, Ip>, state: ConnState, queue: seq<Packet>, log: History)

  /** An engine that knows some peers and was given nothing yet. */
  function Started(peers: map<PeerKey, Ip>): Engine {
    Engine(peers, Connected, [], History([], [], [], [], []))
  }

  // ── The operations, on values ──

  predicate HasRoute(peers: map<PeerKey, Ip>, dst: Ip) {
    exists k <- peers :: peers[k] == dst
  }

  /** `send_to_peer_inner`: io says whether the relay client could send. */
  function Deliver(e: Engine, p: Packet, io: bool): Engine {
    if HasRoute(e.peers, p.dst) && io then e.(log := e.log.(sent := e.log.sent + [p]))
    else e.(log := e.log.(failed := e.log.failed + [p]))
  }

  /** `send_to_peer` */
  function Submit(e: Engine, p: Packet, io: bool): Engine {
    var seen := e.(log := e.log.(submitted := e.log.submitted + [p]));
    if e.state == Reconnecting then
      var during := seen.(log := seen.log.(outage := e.log.outage + [p]));
      if |e.queue| < MAX_QUEUED_PACKETS then during.(queue := e.queue + [p])
      else during.(log := during.log.(overflow := e.log.overflow + [p]))
    else Deliver(seen, p, io)
  }

  /** The peers after the list, up to the first address that does not parse; and whether there is none. */
  function Relist(ourId: PeerKey, peers: map<PeerKey, Ip>, entries: seq<Listed>): (map<PeerKey, Ip>, bool)
    decreases |entries|
  {
    if entries == [] then (peers, true)
    else
      var p, rest := entries[0], entries[1..];
      if p.key == ourId then Relist(ourId, peers, rest)
      else if p.vip.None? then (peers, false)
      else Relist(ourId, if p.registers then peers[p.key := p.vip.value] else peers, rest)
  }

  /** What `sync_peers` makes of the list: peers that are known are passed over, even if their address does not parse;
      the count of those added, or None at the first address that does not parse. */
  function Sync(ourId: PeerKey, peers: map<PeerKey, Ip>, entries: seq<Listed>): (map<PeerKey, Ip>, Option<nat>)
    decreases |entries|
  {
    if entries == [] then (peers, Some(0))
    else
      var p, rest := entries[0], entries[1..];
      if p.key == ourId || p.key in peers then Sync(ourId, peers, rest)
      else if p.vip.None? then (peers, None)
      else if !p.registers then Sync(ourId, peers, rest)
      else
        var (after, count) := Sync(ourId, peers[p.key := p.vip.value], rest);
        (after, if count.Some? then Some(count.value + 1) else None)
  }

  /** Sending the first n of the drained packets; io[i] says whether the i-th send works. */
  function Flush(e: Engine, drained: seq<Packet>, io: seq<bool>, n: nat): Engine
    requires n <= |drained|
  {
    if n == 0 then e else Deliver(Flush(e, drained, io, n - 1), drained[n - 1], n - 1 < |io| && io[n - 1])
  }

  /** `reconnect` */
  function Reconnect(ourId: PeerKey, e: Engine, fetch: Fetch, io: seq<bool>): Engine {
    var down := e.(state := Reconnecting, log := if e.state == Connected then e.log.(outage := []) else e.log);
    match fetch
    case Failed => down
    case Got(entries) =>
      var (peers, ok) := Relist(ourId, e.peers, entries);
      if !ok then down.(peers := peers)
      else Flush(down.(peers := peers, state := Connected, queue := []), e.queue, io, |e.queue|)
  }

  // ── The engine object ──

  class TunnelEngine {
    const ourId: PeerKey
    var peers: map<PeerKey, Ip>
    var state: ConnState
    var outboundQueue: seq<Packet>
    ghost var log: History

    ghost function View(): Engine
      reads this
    {
      Engine(peers, state, outboundQueue, log)
    }

    constructor (ourId: PeerKey)
      ensures View() == Started(map[]) && this.ourId == ourId
    {
      this.ourId := ourId;
      peers, state, outboundQueue := map[], Connected, [];
      log := History([], [], [], [], []);
    }

    /** Run once, before the engine is put to use; on None it never is. */
    method SyncPeers(fetch: Fetch) returns (r: Option<nat>)
      modifies this`peers
      ensures (peers, r) == if fetch.Failed? then (old(peers), None) else Sync(ourId, old(peers), fetch.entries)
    {
      if fetch.Failed? {
        return None;
      }
      var entries := fetch.entries;
      var i, count := 0, 0;
      while i < |entries|
        invariant 0 <= i <= |entries|
        invariant var (all, total), (after, more) := Sync(ourId, old(peers), entries), Sync(ourId, peers, entries[i..]);
                  all == after && total == if more.Some? then Some(count + more.value) else None
      {
        var p := entries[i];
        assert entries[i..][0] == p && entries[i..][1..] == entries[i + 1..];
        i := i + 1;
        if p.key != ourId && p.key !in peers {
          if p.vip.None? {
            return None;
          }
          if p.registers {
            peers := peers[p.key := p.vip.value];
            count := count + 1;
          }
        }
      }
      r := Some(count);
    }

    method SendToPeerInner(p: Packet, io: bool) returns (ok: bool)
      modifies this`log
      ensures View() == Deliver(old(View()), p, io) && ok == (HasRoute(peers, p.dst) && io)
    {
      var left := peers.Keys;
      while left != {}
        invariant left <= peers.Keys && log == old(log)
        invariant forall k <- peers.Keys - left :: peers[k] != p.dst
        decreases left
      {
        var k :| k in left;
        if peers[k] == p.dst {
          log := if io then log.(sent := log.sent + [p]) else log.(failed := log.failed + [p]);
          return io;
        }
        left := left - {k};
      }
      log := log.(failed := log.failed + [p]);
      ok := false;
    }

    method SendToPeer(p: Packet, io: bool) returns (ok: bool)
      modifies this`log, this`outboundQueue
      ensures View() == Submit(old(View()), p, io)
      ensures ok == (state == Reconnecting || (HasRoute(peers, p.dst) && io))
    {
      log := log.(submitted := log.submitted + [p]);
      if state == Reconnecting {
        log := log.(outage := log.outage + [p]);
        if |outboundQueue| < MAX_QUEUED_PACKETS {
          outboundQueue := outboundQueue + [p];
        } else {
          log := log.(overflow := log.overflow + [p]);
        }
        return true;
      }
      ok := SendToPeerInner(p, io);
    }

    method ReconnectNow(fetch: Fetch, io: seq<bool>) returns (ok: bool)
      modifies this
      ensures View() == Reconnect(ourId, old(View()), fetch, io)
      ensures ok <==> state == Connected
    {
      ghost var before := View();
      if state == Connected {
        log := log.(outage := []);
      }
      state := Reconnecting;
      if fetch.Failed? {
        return false;
      }
      var entries := fetch.entries;
      var i := 0;
      while i < |entries|
        invariant 0 <= i <= |entries|
        invariant Relist(ourId, before.peers, entries) == Relist(ourId, peers, entries[i..])
        invariant state == Reconnecting && outboundQueue == before.queue
        invariant log == if before.state == Connected then before.log.(outage := []) else before.log
      {
        var p := entries[i];
        assert entries[i..][0] == p && entries[i..][1..] == entries[i + 1..];
        if p.key != ourId {
          if p.vip.None? {
            return false;
          }
          if p.registers {
            peers := peers[p.key := p.vip.value];
          }
        }
        i := i + 1;
      }
      state := Connected;
      var drained := outboundQueue;
      outboundQueue := [];
      ghost var up := View();
      i := 0;
      while i < |drained|
        invariant 0 <= i <= |drained|
        invariant View() == Flush(up, drained, io, i) && state == Connected
        invariant peers == up.peers && drained == before.queue
      {
        var _ := SendToPeerInner(drained[i], i < |io| && io[i]);
        i := i + 1;
      }
      ok := true;
    }
  }

  // ── Every run ──

  datatype Event = Submitted(p: Packet, io: bool) | NetworkChanged(fetch: Fetch, flushIo: seq<bool>)

  /** A run of an engine that starts out with some peers. */
  function Exec(ourId: PeerKey, known: map<PeerKey, Ip>, events: seq<Event>): Engine {
    if events == [] then Started(known)
    else
      var e := Exec(ourId, known, events[..|events| - 1]);
      match events[|events| - 1]
      case Submitted(p, io) => Submit(e, p, io)
      case NetworkChanged(fetch, io) => Reconnect(ourId, e, fetch, io)
  }

  /** s is t with some elements left out. */
  predicate Subsequence(s: seq<Packet>, t: seq<Packet>) {
    if s == [] then true
    else if t == [] then false
    else if s[|s| - 1] == t[|t| - 1] then Subsequence(s[..|s| - 1], t[..|t| - 1])
    else Subsequence(s, t[..|t| - 1])
  }

  function FirstOf(s: seq<Packet>, n: nat): seq<Packet> {
    if |s| <= n then s else s[..n]
  }

  /** Each packet submitted has exactly one fate. */
  ghost predicate Conserved(e: Engine) {
    multiset(e.log.submitted)
    == multiset(e.log.sent) + multiset(e.queue) + multiset(e.log.overflow) + multiset(e.log.failed)
  }

  function Beyond(s: seq<Packet>, n: nat): seq<Packet> {
    if |s| <= n then [] else s[n..]
  }

  predicate EndsWith(s: seq<Packet>, end: seq<Packet>) {
    |end| <= |s| && s[|s| - |end|..] == end
  }

  ghost predicate QueueFine(e: Engine) {
    && (e.state == Connected ==> e.queue == [])
    && (e.state == Reconnecting ==>
          && e.queue == FirstOf(e.log.outage, MAX_QUEUED_PACKETS)
          && EndsWith(e.log.overflow, Beyond(e.log.outage, MAX_QUEUED_PACKETS)))
    && Subsequence(e.log.sent + e.queue, e.log.submitted)
    && Conserved(e)
  }

  // Subsequences

  lemma {:induction false} SubsequenceLonger(s: seq<Packet>, t: seq<Packet>, p: Packet)
    requires Subsequence(s, t)
    ensures Subsequence(s, t + [p])
    decreases |t|, 1
  {
    assert (t + [p])[..|t|] == t;
    if s != [] && s[|s| - 1] == p {
      assert s == s[..|s| - 1] + [p];
      SubsequenceInit(s, t);
    }
  }

  lemma {:induction false} SubsequenceInit(s: seq<Packet>, t: seq<Packet>)
    requires s != [] && Subsequence(s, t)
    ensures Subsequence(s[..|s| - 1], t)
    decreases |t|, 0
  {
    var last := |t| - 1;
    assert t[..last] + [t[last]] == t;
    if s[|s| - 1] == t[last] {
      SubsequenceLonger(s[..|s| - 1], t[..last], t[last]);
    } else {
      SubsequenceInit(s, t[..last]);
      SubsequenceLonger(s[..|s| - 1], t[..last], t[last]);
    }
  }

  lemma {:induction false} SubsequenceWithout(a: seq<Packet>, x: Packet, b: seq<Packet>, t: seq<Packet>)
    requires Subsequence(a + [x] + b, t)
    ensures Subsequence(a + b, t)
    decreases |t|
  {
    var all, last := a + [x] + b, |t| - 1;
    if b == [] {
      assert all[..|all| - 1] == a + b;
      SubsequenceInit(all, t);
    } else {
      var b' := b[..|b| - 1];
      assert all[|all| - 1] == b[|b| - 1] && all[..|all| - 1] == a + [x] + b';
      assert (a + b)[..|a + b| - 1] == a + b' && (a + b)[|a + b| - 1] == b[|b| - 1];
      if b[|b| - 1] == t[last] {
        SubsequenceWithout(a, x, b', t[..last]);
      } else {
        SubsequenceWithout(a, x, b, t[..last]);
      }
    }
  }

  // Preservation

  /** What holds after n of the drained packets have been tried. */
  ghost predicate Flushing(e: Engine, rest: seq<Packet>) {
    && e.state == Connected && e.queue == []
    && Subsequence(e.log.sent + rest, e.log.submitted)
    && Conserved(e.(queue := rest))
  }

  lemma DeliverKeeps(e: Engine, p: Packet, rest: seq<Packet>, io: bool)
    requires Flushing(e, [p] + rest)
    ensures Flushing(Deliver(e, p, io), rest)
  {
    DeliverKeepsOrder(e, p, rest, io);
    assert multiset([p] + rest) == multiset{p} + multiset(rest);
  }

  lemma DeliverKeepsOrder(e: Engine, p: Packet, rest: seq<Packet>, io: bool)
    requires Subsequence(e.log.sent + ([p] + rest), e.log.submitted)
    ensures Subsequence(Deliver(e, p, io).log.sent + rest, e.log.submitted)
  {
    assert e.log.sent + ([p] + rest) == (e.log.sent + [p]) + rest;
    if !(HasRoute(e.peers, p.dst) && io) {
      SubsequenceWithout(e.log.sent, p, rest, e.log.submitted);
    }
  }

  lemma SubsequenceBoth(s: seq<Packet>, t: seq<Packet>, p: Packet)
    requires Subsequence(s, t)
    ensures Subsequence(s + [p], t + [p])
  {
    assert (s + [p])[..|s|] == s && (t + [p])[..|t|] == t;
  }

  lemma SubmitConnected(e: Engine, p: Packet, io: bool)
    requires QueueFine(e) && e.state == Connected
    ensures QueueFine(Submit(e, p, io))
  {
    assert e.log.sent + e.queue == e.log.sent && [p] + [] == [p];
    SubsequenceBoth(e.log.sent, e.log.submitted, p);
    var seen := e.(log := e.log.(submitted := e.log.submitted + [p]));
    DeliverKeeps(seen, p, [], io);
  }

  lemma SubmitQueued(e: Engine, p: Packet, io: bool)
    requires QueueFine(e) && e.state == Reconnecting && |e.queue| < MAX_QUEUED_PACKETS
    ensures QueueFine(Submit(e, p, io))
  {
    var kept := e.log.sent + e.queue;
    SubsequenceBoth(kept, e.log.submitted, p);
    assert e.log.sent + (e.queue + [p]) == kept + [p];
    assert multiset(e.queue + [p]) == multiset(e.queue) + multiset{p};
  }

  lemma SubmitRefused(e: Engine, p: Packet, io: bool)
    requires QueueFine(e) && e.state == Reconnecting && |e.queue| >= MAX_QUEUED_PACKETS
    ensures QueueFine(Submit(e, p, io))
  {
    SubsequenceLonger(e.log.sent + e.queue, e.log.submitted, p);
    assert (e.log.outage + [p])[..MAX_QUEUED_PACKETS] == FirstOf(e.log.outage, MAX_QUEUED_PACKETS);
    assert multiset(e.log.overflow + [p]) == multiset(e.log.overflow) + multiset{p};
    OneMoreBeyond(e.log.overflow, e.log.outage, p, MAX_QUEUED_PACKETS);
  }

  lemma OneMoreBeyond(overflow: seq<Packet>, outage: seq<Packet>, p: Packet, n: nat)
    requires EndsWith(overflow, Beyond(outage, n)) && |outage| >= n
    ensures EndsWith(overflow + [p], Beyond(outage + [p], n))
  {
    assert Beyond(outage + [p], n) == Beyond(outage, n) + [p];
  }

  lemma SubmitKeeps(e: Engine, p: Packet, io: bool)
    requires QueueFine(e)
    ensures QueueFine(Submit(e, p, io))
  {
    if e.state == Connected {
      SubmitConnected(e, p, io);
    } else if |e.queue| < MAX_QUEUED_PACKETS {
      SubmitQueued(e, p, io);
    } else {
      SubmitRefused(e, p, io);
    }
  }

  lemma {:induction false} FlushKeeps(e: Engine, drained: seq<Packet>, io: seq<bool>, n: nat)
    requires n <= |drained| && Flushing(e, drained)
    ensures Flushing(Flush(e, drained, io, n), drained[n..])
  {
    if n == 0 {
      assert drained[0..] == drained;
    } else {
      FlushKeeps(e, drained, io, n - 1);
      assert drained[n - 1..] == [drained[n - 1]] + drained[n..];
      DeliverKeeps(Flush(e, drained, io, n - 1), drained[n - 1], drained[n..], n - 1 < |io| && io[n - 1]);
    }
  }

  lemma ReconnectKeeps(ourId: PeerKey, e: Engine, fetch: Fetch, io: seq<bool>)
    requires QueueFine(e)
    ensures QueueFine(Reconnect(ourId, e, fetch, io))
  {
    if fetch.Got? {
      var (peers, ok) := Relist(ourId, e.peers, fetch.entries);
      if ok {
        var log := if e.state == Connected then e.log.(outage := []) else e.log;
        var up := Engine(peers, Connected, [], log);
        FlushKeeps(up, e.queue, io, |e.queue|);
        var after := Flush(up, e.queue, io, |e.queue|);
        assert e.queue[|e.queue|..] == [];
        assert after.log.sent + [] == after.log.sent + after.queue;
      }
    }
  }

  /** Over every run, whichever reconnects and sends fail: when connected the queue is empty; while reconnecting it is
      exactly the first min(256, k) of the k packets submitted since the outage began, and the others are the last that
      overflowed; sent followed by queued keeps the order of submission; and submitted = sent + queued + overflow +
      failed, packet by packet. */
  lemma {:induction false} QueueAlwaysFine(ourId: PeerKey, known: map<PeerKey, Ip>, events: seq<Event>)
    ensures QueueFine(Exec(ourId, known, events))
  {
    if events == [] {
    } else {
      var before := events[..|events| - 1];
      QueueAlwaysFine(ourId, known, before);
      var e := Exec(ourId, known, before);
      match events[|events| - 1]
      case Submitted(p, io) => SubmitKeeps(e, p, io);
      case NetworkChanged(fetch, io) => ReconnectKeeps(ourId, e, fetch, io);
    }
  }

  /** In numbers: submitted = sent + queued + dropped when full + failed, over every run. */
  lemma PacketCounts(ourId: PeerKey, known: map<PeerKey, Ip>, events: seq<Event>)
    ensures var e := Exec(ourId, known, events);
            |e.log.submitted| == |e.log.sent| + |e.queue| + |e.log.overflow| + |e.log.failed|
  {
    QueueAlwaysFine(ourId, known, events);
    var e := Exec(ourId, known, events);
    assert |multiset(e.log.submitted)| == |e.log.submitted| && |multiset(e.log.sent)| == |e.log.sent|;
    assert |multiset(e.queue)| == |e.queue| && |multiset(e.log.overflow)| == |e.log.overflow|;
    assert |multiset(e.log.failed)| == |e.log.failed|;
  }

  // ── What the peer loop leaves behind ──

  /** The i-th of the first n entries is the last of them that registers this peer. */
  ghost predicate LastRegistered(ourId: PeerKey, entries: seq<Listed>, n: nat, i: nat, k: PeerKey)
    requires n <= |entries|
  {
    && i < n && entries[i].key == k != ourId && entries[i].registers
    && forall j: nat | i < j < n && entries[j].key == k :: !entries[j].registers
  }

  /** n is where the loop stops: at the first address of another device that does not parse, or at the end. */
  ghost predicate StopsAt(ourId: PeerKey, entries: seq<Listed>, n: nat) {
    && n <= |entries|
    && (forall i: nat | i < n :: entries[i].key == ourId || entries[i].vip.Some?)
    && (n < |entries| ==> entries[n].key != ourId && entries[n].vip.None?)
  }

  /** The reconnect gets through exactly when every address of another device parses. Whether or not it does, each peer
      has the address of its last successful registration before the stop, or else the one it had; no peer is lost. */
  lemma {:induction false} RelistMeans(
      ourId: PeerKey, peers: map<PeerKey, Ip>, entries: seq<Listed>, n: nat, k: PeerKey)
    requires StopsAt(ourId, entries, n)
    ensures Relist(ourId, peers, entries).1 <==> n == |entries|
    ensures var after := Relist(ourId, peers, entries).0;
            && (forall i: nat | LastRegistered(ourId, entries, n, i, k) ::
                  k in after && Some(after[k]) == entries[i].vip)
            && ((forall i: nat :: !LastRegistered(ourId, entries, n, i, k)) ==>
                  (k in after <==> k in peers) && (k in peers ==> after[k] == peers[k]))
    decreases |entries|
  {
    if n == 0 {
    } else {
      var p, rest := entries[0], entries[1..];
      var peers' := if p.key != ourId && p.registers then peers[p.key := p.vip.value] else peers;
      var m := n - 1;
      RelistMeans(ourId, peers', rest, m, k);
      forall i: nat
        ensures LastRegistered(ourId, rest, m, i, k) <==> LastRegistered(ourId, entries, n, i + 1, k)
      {
        LaterRegistered(ourId, entries, n, i, k);
      }
      if k == ourId {
      } else if forall i: nat :: !LastRegistered(ourId, rest, m, i, k) {
        NoneRegistered(ourId, rest, m, k);
        assert LastRegistered(ourId, entries, n, 0, k) <==> p.key == k && p.registers by {
          assert forall j: nat | 0 < j < n :: entries[j] == rest[j - 1];
        }
      } else {
        var i: nat :| LastRegistered(ourId, rest, m, i, k);
        assert LastRegistered(ourId, entries, n, i + 1, k);
        assert entries[i + 1].registers;
      }
    }
  }

  lemma LaterRegistered(ourId: PeerKey, entries: seq<Listed>, n: nat, i: nat, k: PeerKey)
    requires 0 < n <= |entries|
    ensures LastRegistered(ourId, entries[1..], n - 1, i, k) <==> LastRegistered(ourId, entries, n, i + 1, k)
  {
    var rest := entries[1..];
    if LastRegistered(ourId, rest, n - 1, i, k) {
      forall j: nat | i + 1 < j < n && entries[j].key == k
        ensures !entries[j].registers
      {
        assert rest[j - 1] == entries[j];
      }
    }
    if LastRegistered(ourId, entries, n, i + 1, k) {
      forall j: nat | i < j < n - 1 && rest[j].key == k
        ensures !rest[j].registers
      {
        assert entries[j + 1] == rest[j];
      }
    }
  }

  /** If there is no last registration of a peer, there is none. */
  lemma {:induction false} NoneRegistered(ourId: PeerKey, entries: seq<Listed>, n: nat, k: PeerKey)
    requires n <= |entries| && k != ourId && forall i: nat :: !LastRegistered(ourId, entries, n, i, k)
    ensures forall i: nat | i < n && entries[i].key == k :: !entries[i].registers
  {
    var m := n;
    while m > 0
      invariant m <= n && forall i: nat | m <= i < n && entries[i].key == k :: !entries[i].registers
    {
      m := m - 1;
      assert !LastRegistered(ourId, entries, n, m, k);
    }
  }

  // ── The end of an outage ──

  lemma {:induction false} FlushSendsAll(e: Engine, drained: seq<Packet>, io: seq<bool>, n: nat)
    requires n <= |drained| <= |io| && (forall i | 0 <= i < |drained| :: io[i] && HasRoute(e.peers, drained[i].dst))
    ensures Flush(e, drained, io, n) == e.(log := e.log.(sent := e.log.sent + drained[..n]))
  {
    if n == 0 {
    } else {
      FlushSendsAll(e, drained, io, n - 1);
      assert drained[..n] == drained[..n - 1] + [drained[n - 1]];
    }
  }

  /** The end of an outage: a reconnect after which all queued packets have a route and every send works hands exactly
      the first 256 packets of the outage over, in order, after everything sent before; the packets of the outage
      beyond those were the last to overflow. Nothing is lost if and only if there were at most 256. */
  lemma OutageEnds(
      ourId: PeerKey, known: map<PeerKey, Ip>, events: seq<Event>, entries: seq<Listed>, io: seq<bool>)
    requires var e := Exec(ourId, known, events);
             var (peers, ok) := Relist(ourId, e.peers, entries);
             && e.state == Reconnecting && ok && |e.queue| <= |io|
             && (forall i | 0 <= i < |e.queue| :: io[i] && HasRoute(peers, e.queue[i].dst))
    ensures var e := Exec(ourId, known, events);
            var after := Exec(ourId, known, events + [NetworkChanged(Got(entries), io)]);
            && after.state == Connected && after.queue == []
            && after.log.sent == e.log.sent + FirstOf(e.log.outage, MAX_QUEUED_PACKETS)
            && EndsWith(after.log.overflow, Beyond(e.log.outage, MAX_QUEUED_PACKETS))
            && after.log.overflow == e.log.overflow && after.log.failed == e.log.failed
            && after.log.submitted == e.log.submitted
            && (after.log.sent == e.log.sent + e.log.outage <==> |e.log.outage| <= MAX_QUEUED_PACKETS)
  {
    QueueAlwaysFine(ourId, known, events);
    var e := Exec(ourId, known, events);
    assert (events + [NetworkChanged(Got(entries), io)])[..|events|] == events;
    var (peers, _) := Relist(ourId, e.peers, entries);
    FlushSendsAll(Engine(peers, Connected, [], e.log), e.queue, io, |e.queue|);
    assert e.queue[..|e.queue|] == e.queue;
  }

  // ── The peers an engine starts with ──

  /** Entry i is the first that registers the peer. */
  ghost predicate FirstRegistered(ourId: PeerKey, entries: seq<Listed>, i: nat, k: PeerKey) {
    && i < |entries| && entries[i].key == k != ourId && entries[i].registers
    && forall j: nat | j < i && entries[j].key == k :: !entries[j].registers
  }

  lemma {:induction false} SyncKeepsKnown(ourId: PeerKey, peers: map<PeerKey, Ip>, entries: seq<Listed>)
    ensures var (after, count) := Sync(ourId, peers, entries);
            && (forall k <- peers :: k in after && after[k] == peers[k])
            && (count.Some? ==> count.value + |peers| == |after|)
    decreases |entries|
  {
    if entries == [] {
    } else {
      var p := entries[0];
      SyncKeepsKnown(ourId, AddedBy(ourId, peers, p), entries[1..]);
      assert p.key !in peers && p.vip.Some? ==> peers[p.key := p.vip.value].Keys == peers.Keys + {p.key};
    }
  }

  /** The peers after one entry, in whatever way the loop goes on. */
  function AddedBy(ourId: PeerKey, peers: map<PeerKey, Ip>, p: Listed): map<PeerKey, Ip> {
    if p.key != ourId && p.key !in peers && p.vip.Some? && p.registers then peers[p.key := p.vip.value] else peers
  }

  lemma {:induction false} SyncAddsAll(ourId: PeerKey, peers: map<PeerKey, Ip>, entries: seq<Listed>)
    requires Sync(ourId, peers, entries).1.Some?
    ensures forall p <- entries | p.key != ourId && p.registers :: p.key in Sync(ourId, peers, entries).0
    decreases |entries|
  {
    if entries == [] {
    } else {
      var p, rest := entries[0], entries[1..];
      SyncAddsAll(ourId, AddedBy(ourId, peers, p), rest);
      SyncKeepsKnown(ourId, AddedBy(ourId, peers, p), rest);
      assert forall q <- entries :: q == p || q in rest;
    }
  }

  lemma {:induction false} SyncAddsFirst(ourId: PeerKey, peers: map<PeerKey, Ip>, entries: seq<Listed>, k: PeerKey)
    requires k !in peers && k in Sync(ourId, peers, entries).0
    ensures exists i: nat ::
              FirstRegistered(ourId, entries, i, k) && entries[i].vip == Some(Sync(ourId, peers, entries).0[k])
    decreases |entries|
  {
    var p, rest := entries[0], entries[1..];
    var peers' := AddedBy(ourId, peers, p);
    if k in peers' {
      SyncKeepsKnown(ourId, peers', rest);
      assert FirstRegistered(ourId, entries, 0, k);
    } else {
      SyncAddsFirst(ourId, peers', rest, k);
      var i: nat :| FirstRegistered(ourId, rest, i, k) && rest[i].vip == Some(Sync(ourId, peers', rest).0[k]);
      LaterFirst(ourId, entries, i, k);
    }
  }

  /** Known peers keep their address. Every other peer that is added has the address of its first successful
      registration, where a reconnect would take the last; and if the list is gone through, each peer that registers is
      there, and the count is that of the peers added. */
  lemma SyncMeans(ourId: PeerKey, peers: map<PeerKey, Ip>, entries: seq<Listed>)
    ensures var (after, count) := Sync(ourId, peers, entries);
            && (forall k <- peers :: k in after && after[k] == peers[k])
            && (forall k <- after | k !in peers ::
                  exists i: nat :: FirstRegistered(ourId, entries, i, k) && entries[i].vip == Some(after[k]))
            && (count.Some? ==> forall p <- entries | p.key != ourId && p.registers :: p.key in after)
            && (count.Some? ==> count.value + |peers| == |after|)
  {
    SyncKeepsKnown(ourId, peers, entries);
    if Sync(ourId, peers, entries).1.Some? {
      SyncAddsAll(ourId, peers, entries);
    }
    forall k | k in Sync(ourId, peers, entries).0 && k !in peers
      ensures exists i: nat ::
                FirstRegistered(ourId, entries, i, k) && entries[i].vip == Some(Sync(ourId, peers, entries).0[k])
    {
      SyncAddsFirst(ourId, peers, entries, k);
    }
  }

  lemma LaterFirst(ourId: PeerKey, entries: seq<Listed>, i: nat, k: PeerKey)
    requires entries != [] && FirstRegistered(ourId, entries[1..], i, k)
    requires entries[0].key == k ==> !entries[0].registers
    ensures FirstRegistered(ourId, entries, i + 1, k) && entries[i + 1] == entries[1..][i]
  {
    forall j: nat | j < i + 1 && entries[j].key == k
      ensures !entries[j].registers
    {
      assert j > 0 ==> entries[j] == entries[1..][j - 1];
    }
  }
}
