/** Clients, relay and a network that loses, duplicates and reorders datagrams, as one transition system.
    A run is a sequence of actions; an action that is not enabled changes nothing. A datagram once sent stays
    deliverable for ever: losing it is never delivering it, duplicating it is delivering it again, and any order
    of deliveries is a run. */
module RelayNetwork {
  import opened Wrappers
  import opened Bytes
  import opened RelayProto
  import opened RelayServer
  import opened RelayClient

  /** A client session is known by its socket address, which no other session ever has. */
  datatype Session = Session(who: Identity, open: bool)

  datatype Net = Net(
    sessions: map<Addr, Session>,
    peers: map<PeerId, Addr>,
    relayUp: bool,
    toRelay: set<Datagram>,   // addr is the source
    toClients: set<Datagram>) // addr is the destination

  datatype Action =
    | Register(addr: Addr, who: Identity)
    | Send(addr: Addr, payload: seq<Byte>)
    | Keepalive(addr: Addr)
    | Close(addr: Addr)
    | RelayTakes(datagram: Datagram)
    | ClientTakes(datagram: Datagram)

  const START: Net := Net(map[], map[], true, {}, {})

  predicate Open(n: Net, a: Addr) {
    a in n.sessions && n.sessions[a].open
  }

  predicate Enabled(n: Net, act: Action) {
    match act
    case Register(a, _) => a !in n.sessions
    case Send(a, _) => Open(n, a)
    case Keepalive(a) => Open(n, a)
    case Close(a) => Open(n, a)
    case RelayTakes(d) => n.relayUp && d in n.toRelay
    case ClientTakes(d) => d in n.toClients && Open(n, d.addr)
  }

  function Closed(n: Net, a: Addr): Net
    requires a in n.sessions
  {
    n.(sessions := n.sessions[a := n.sessions[a].(open := false)])
  }

  /** A client hands a frame to its socket; when it does not fit, `expect` panics and the session is gone. */
  function Emit(n: Net, a: Addr, f: RelayFrame): Net
    requires a in n.sessions
  {
    match Encoded(f)
    case Ok(bytes) => n.(toRelay := n.toRelay + {Datagram(a, bytes)})
    case Err(_) => Closed(n, a)
  }

  function Apply(n: Net, act: Action): Net {
    if !Enabled(n, act) then n
    else
      match act
      case Register(a, who) => Emit(n.(sessions := n.sessions[a := Session(who, true)]), a, HelloFrame(who.ourId))
      case Send(a, p) =>
        var who := n.sessions[a].who;
        Emit(n, a, DataFrame(who.ourId, who.peerId, p))
      case Keepalive(a) => Emit(n, a, KeepaliveFrame(n.sessions[a].who.ourId))
      case Close(a) => Closed(n, a)
      case RelayTakes(d) =>
        var r := React(n.peers, d.addr, d.bytes);
        n.(peers := r.peers, relayUp := !r.exits,
           toClients := n.toClients + (if r.sent.Some? then {r.sent.value} else {}))
      case ClientTakes(_) => n
  }

  function Exec(acts: seq<Action>): Net {
    if acts == [] then START else Apply(Exec(acts[..|acts| - 1]), acts[|acts| - 1])
  }

  /** Action i of the run happened. */
  predicate Happens(acts: seq<Action>, i: nat)
    requires i < |acts|
  {
    Enabled(Exec(acts[..i]), acts[i])
  }

  /** The payload that action i makes a client's `recv` return, if it does. */
  function Returns(acts: seq<Action>, i: nat): Option<seq<Byte>>
    requires i < |acts|
  {
    if acts[i].ClientTakes? && Happens(acts, i)
    then Accepts(Exec(acts[..i]).sessions[acts[i].datagram.addr].who, acts[i].datagram.bytes)
    else None
  }

  /** Action j is a `send` of the payload by a session with the given identities. */
  predicate SendsAs(acts: seq<Action>, j: nat, who: Identity, payload: seq<Byte>)
    requires j < |acts|
  {
    && acts[j].Send? && Happens(acts, j) && acts[j].payload == payload
    && Exec(acts[..j]).sessions[acts[j].addr].who == who
  }

  ghost predicate SentAs(acts: seq<Action>, who: Identity, payload: seq<Byte>) {
    exists j: nat | j < |acts| :: SendsAs(acts, j, who, payload)
  }

  lemma ExecStep(acts: seq<Action>, act: Action)
    ensures Exec(acts + [act]) == Apply(Exec(acts), act)
  {
    assert (acts + [act])[..|acts|] == acts;
  }

  // ── Invariants ──

  /** A datagram on its way to the relay is what its own session encoded, and Data was really sent. */
  ghost predicate GenuineToRelay(acts: seq<Action>, n: Net, d: Datagram) {
    && d.addr in n.sessions && IsEncoding(d.bytes) && Decode(d.bytes).Ok?
    && var f := Decode(d.bytes).value;
       var who := n.sessions[d.addr].who;
    && f.senderId == who.ourId
    && (f.msgType == Data ==> f.targetId == who.peerId && SentAs(acts, who, f.payload))
  }

  /** A datagram on its way to a client is Data that some session sent to the id of the client. */
  ghost predicate GenuineToClient(acts: seq<Action>, n: Net, d: Datagram) {
    && d.addr in n.sessions && IsEncoding(d.bytes) && Decode(d.bytes).Ok?
    && var f := Decode(d.bytes).value;
    && f.msgType == Data && f.targetId == n.sessions[d.addr].who.ourId
    && SentAs(acts, Identity(f.senderId, f.targetId), f.payload)
  }

  ghost predicate Inv(acts: seq<Action>, n: Net) {
    && n.relayUp
    && (forall d <- n.toRelay :: GenuineToRelay(acts, n, d))
    && (forall id <- n.peers :: n.peers[id] in n.sessions && n.sessions[n.peers[id]].who.ourId == id)
    && (forall d <- n.toClients :: GenuineToClient(acts, n, d))
  }

  lemma SentAsExtends(acts: seq<Action>, act: Action, who: Identity, payload: seq<Byte>)
    requires SentAs(acts, who, payload)
    ensures SentAs(acts + [act], who, payload)
  {
    var j: nat :| j < |acts| && SendsAs(acts, j, who, payload);
    assert (acts + [act])[..j] == acts[..j];
    assert SendsAs(acts + [act], j, who, payload);
  }

  /** Identities of sessions never change and sessions are never forgotten. */
  predicate Extends(n: Net, m: Net) {
    forall a <- n.sessions :: a in m.sessions && m.sessions[a].who == n.sessions[a].who
  }

  lemma GenuineExtends(acts: seq<Action>, act: Action, n: Net, m: Net, d: Datagram)
    requires Extends(n, m)
    ensures GenuineToRelay(acts, n, d) ==> GenuineToRelay(acts + [act], m, d)
    ensures GenuineToClient(acts, n, d) ==> GenuineToClient(acts + [act], m, d)
  {
    if d.addr in n.sessions && Decode(d.bytes).Ok? {
      var f, who := Decode(d.bytes).value, n.sessions[d.addr].who;
      if SentAs(acts, who, f.payload) {
        SentAsExtends(acts, act, who, f.payload);
      }
      if SentAs(acts, Identity(f.senderId, f.targetId), f.payload) {
        SentAsExtends(acts, act, Identity(f.senderId, f.targetId), f.payload);
      }
    }
  }

  lemma EmitGenuine(acts: seq<Action>, n: Net, a: Addr, f: RelayFrame)
    requires a in n.sessions && f.senderId == n.sessions[a].who.ourId && Encoded(f).Ok?
    requires f.msgType == Data ==>
               f.targetId == n.sessions[a].who.peerId && SentAs(acts, n.sessions[a].who, f.payload)
    ensures GenuineToRelay(acts, n, Datagram(a, Encoded(f).value))
  {
    DecodesIffPrinted(Encoded(f).value, f);
  }

  lemma RelayStepKeeps(acts: seq<Action>, n: Net, d: Datagram)
    requires Inv(acts, n) && d in n.toRelay
    ensures var r := React(n.peers, d.addr, d.bytes);
            && !r.exits
            && (forall id <- r.peers :: r.peers[id] in n.sessions && n.sessions[r.peers[id]].who.ourId == id)
            && (r.sent.Some? ==> GenuineToClient(acts, n, r.sent.value) && r.sent.value.bytes == d.bytes)
  {
    assert GenuineToRelay(acts, n, d);
    EncodingSurvivesRelay(d.bytes);
    var f := Decode(d.bytes).value;
    assert f.msgType == Data ==> DataFrame(f.senderId, f.targetId, f.payload) == f;
  }

  /** What a step must show: sessions are kept, and what is new is genuine. */
  lemma InvGrows(acts: seq<Action>, act: Action, n: Net, m: Net)
    requires Inv(acts, n) && Extends(n, m) && m.relayUp
    requires forall d <- m.toRelay :: d in n.toRelay || GenuineToRelay(acts + [act], m, d)
    requires forall d <- m.toClients :: d in n.toClients || GenuineToClient(acts + [act], m, d)
    requires forall id <- m.peers :: m.peers[id] in m.sessions && m.sessions[m.peers[id]].who.ourId == id
    ensures Inv(acts + [act], m)
  {
    forall d: Datagram
      ensures GenuineToRelay(acts, n, d) ==> GenuineToRelay(acts + [act], m, d)
      ensures GenuineToClient(acts, n, d) ==> GenuineToClient(acts + [act], m, d)
    {
      GenuineExtends(acts, act, n, m, d);
    }
  }

  /** A step in which session a hands a frame to its socket. */
  lemma EmitKeepsInv(acts: seq<Action>, act: Action, n: Net, n': Net, a: Addr, f: RelayFrame)
    requires Inv(acts, n) && Extends(n, n') && a in n'.sessions && n' == n.(sessions := n'.sessions)
    requires f.senderId == n'.sessions[a].who.ourId
    requires f.msgType == Data ==>
               f.targetId == n'.sessions[a].who.peerId && SentAs(acts + [act], n'.sessions[a].who, f.payload)
    ensures Inv(acts + [act], Emit(n', a, f)) && Extends(n, Emit(n', a, f))
  {
    var m := Emit(n', a, f);
    if Encoded(f).Ok? {
      EmitGenuine(acts + [act], m, a, f);
    }
    InvGrows(acts, act, n, m);
  }

  lemma SendKeepsInv(acts: seq<Action>, a: Addr, p: seq<Byte>)
    requires Inv(acts, Exec(acts)) && Open(Exec(acts), a)
    ensures Inv(acts + [Send(a, p)], Apply(Exec(acts), Send(a, p)))
    ensures Extends(Exec(acts), Apply(Exec(acts), Send(a, p)))
  {
    var n, all := Exec(acts), acts + [Send(a, p)];
    var who := n.sessions[a].who;
    assert all[..|acts|] == acts;
    assert SendsAs(all, |acts|, who, p);
    EmitKeepsInv(acts, Send(a, p), n, n, a, DataFrame(who.ourId, who.peerId, p));
  }

  lemma TakeKeepsInv(acts: seq<Action>, d: Datagram)
    requires Inv(acts, Exec(acts)) && d in Exec(acts).toRelay
    ensures Inv(acts + [RelayTakes(d)], Apply(Exec(acts), RelayTakes(d)))
    ensures Extends(Exec(acts), Apply(Exec(acts), RelayTakes(d)))
  {
    var n, m := Exec(acts), Apply(Exec(acts), RelayTakes(d));
    RelayStepKeeps(acts, n, d);
    var sent := React(n.peers, d.addr, d.bytes).sent;
    if sent.Some? {
      GenuineExtends(acts, RelayTakes(d), n, m, sent.value);
    }
    InvGrows(acts, RelayTakes(d), n, m);
  }

  lemma ApplyKeepsInv(acts: seq<Action>, act: Action)
    requires Inv(acts, Exec(acts))
    ensures Inv(acts + [act], Exec(acts + [act]))
    ensures Extends(Exec(acts), Exec(acts + [act]))
  {
    var n := Exec(acts);
    ExecStep(acts, act);
    if !Enabled(n, act) {
      InvGrows(acts, act, n, n);
    } else {
      match act {
        case Register(a, who) =>
          EmitKeepsInv(acts, act, n, n.(sessions := n.sessions[a := Session(who, true)]), a, HelloFrame(who.ourId));
        case Send(a, p) => SendKeepsInv(acts, a, p);
        case Keepalive(a) => EmitKeepsInv(acts, act, n, n, a, KeepaliveFrame(n.sessions[a].who.ourId));
        case Close(a) => InvGrows(acts, act, n, Closed(n, a));
        case RelayTakes(d) => TakeKeepsInv(acts, d);
        case ClientTakes(_) => InvGrows(acts, act, n, n);
      }
    }
  }

  lemma {:induction false} InvAlways(acts: seq<Action>)
    ensures Inv(acts, Exec(acts))
  {
    if acts == [] {
    } else {
      var k := |acts| - 1;
      InvAlways(acts[..k]);
      ApplyKeepsInv(acts[..k], acts[k]);
      assert acts == acts[..k] + [acts[k]];
    }
  }

  // ── Integrity ──

  /** The filter looks only at the sender, yet what it lets through was sent to this client. */
  lemma AcceptedWasSent(acts: seq<Action>, n: Net, d: Datagram)
    requires GenuineToClient(acts, n, d) && Accepts(n.sessions[d.addr].who, d.bytes).Some?
    ensures var who := n.sessions[d.addr].who;
            SentAs(acts, Identity(who.peerId, who.ourId), Accepts(who, d.bytes).value)
  {
    EncodingSurvivesRelay(d.bytes);
  }

  lemma SentInPrefix(acts: seq<Action>, i: nat, who: Identity, payload: seq<Byte>)
    requires i <= |acts| && SentAs(acts[..i], who, payload)
    ensures exists j: nat | j < i :: SendsAs(acts, j, who, payload)
  {
    var j: nat :| j < i && SendsAs(acts[..i], j, who, payload);
    assert acts[..i][..j] == acts[..j];
    assert SendsAs(acts, j, who, payload);
  }

  /** Whatever a client's `recv` returns was passed to `send` earlier by a session with the mirrored identities,
      although `recv` never looks at the target of a frame. */
  lemma RecvIntegrity(acts: seq<Action>, i: nat)
    requires i < |acts| && Returns(acts, i).Some?
    ensures var who := Exec(acts[..i]).sessions[acts[i].datagram.addr].who;
            exists j: nat | j < i :: SendsAs(acts, j, Identity(who.peerId, who.ourId), Returns(acts, i).value)
  {
    var n, d := Exec(acts[..i]), acts[i].datagram;
    assert GenuineToClient(acts[..i], n, d) by {
      InvAlways(acts[..i]);
    }
    AcceptedWasSent(acts[..i], n, d);
    var who := n.sessions[d.addr].who;
    var payload := Returns(acts, i).value;
    SentInPrefix(acts, i, Identity(who.peerId, who.ourId), payload);
    var j: nat :| j < i && SendsAs(acts, j, Identity(who.peerId, who.ourId), payload);
    assert who == Exec(acts[..i]).sessions[acts[i].datagram.addr].who;
  }

  /** The relay is never taken out of its loop. */
  lemma RelayNeverExits(acts: seq<Action>)
    ensures Exec(acts).relayUp
  {
    InvAlways(acts);
  }

  // ── Who gets the traffic of an id ──

  /** The datagrams the relay took, in the order it took them. */
  function RelayInputs(acts: seq<Action>): seq<Datagram> {
    if acts == [] then []
    else
      var before, last := acts[..|acts| - 1], acts[|acts| - 1];
      RelayInputs(before) + (if last.RelayTakes? && Enabled(Exec(before), last) then [last.datagram] else [])
  }

  /** The session whose Hello or Keepalive the relay took last for an id. */
  function Holder(acts: seq<Action>, id: PeerId): Option<Addr> {
    LastRegistration(RelayInputs(acts), id)
  }

  lemma InputStep(acts: seq<Action>, act: Action)
    ensures RelayInputs(acts + [act])
         == RelayInputs(acts) + (if act.RelayTakes? && Enabled(Exec(acts), act) then [act.datagram] else [])
  {
    assert (acts + [act])[..|acts|] == acts;
  }

  lemma OneMoreInput(peers: map<PeerId, Addr>, inputs: seq<Datagram>, d: Datagram)
    requires RegistryAgrees(peers, inputs)
    ensures RegistryAgrees(React(peers, d.addr, d.bytes).peers, inputs + [d])
  {
    var more := inputs + [d];
    assert more[..|inputs|] == inputs && more[..|inputs| + 1] == more;
    ReactMeaning(peers, more, |inputs|);
  }

  lemma ApplyKeepsRegistry(acts: seq<Action>, act: Action)
    requires RegistryAgrees(Exec(acts).peers, RelayInputs(acts))
    ensures RegistryAgrees(Exec(acts + [act]).peers, RelayInputs(acts + [act]))
  {
    ExecStep(acts, act);
    InputStep(acts, act);
    if act.RelayTakes? && Enabled(Exec(acts), act) {
      OneMoreInput(Exec(acts).peers, RelayInputs(acts), act.datagram);
    } else {
      assert RelayInputs(acts + [act]) == RelayInputs(acts);
    }
  }

  lemma {:induction false} RegistryIsHolder(acts: seq<Action>)
    ensures RegistryAgrees(Exec(acts).peers, RelayInputs(acts))
  {
    if acts == [] {
    } else {
      var k := |acts| - 1;
      RegistryIsHolder(acts[..k]);
      ApplyKeepsRegistry(acts[..k], acts[k]);
      assert acts == acts[..k] + [acts[k]];
    }
  }

  /** Action j makes the relay forward datagram d to session a. */
  predicate Forwarded(acts: seq<Action>, j: nat, a: Addr, bytes: seq<Byte>)
    requires j < |acts|
  {
    && acts[j].RelayTakes? && Happens(acts, j)
    && React(Exec(acts[..j]).peers, acts[j].datagram.addr, acts[j].datagram.bytes).sent == Some(Datagram(a, bytes))
  }

  /** Traffic for an id goes to a session if and only if that session is the holder of the id at that moment;
      it is forwarded octet for octet. */
  lemma ForwardedIffHolder(acts: seq<Action>, j: nat, a: Addr, bytes: seq<Byte>)
    requires j < |acts|
    ensures Forwarded(acts, j, a, bytes) <==>
              && acts[j].RelayTakes? && Happens(acts, j) && acts[j].datagram.bytes == bytes
              && Decode(bytes).Ok? && Decode(bytes).value.msgType == Data
              && Holder(acts[..j], Decode(bytes).value.targetId) == Some(a)
  {
    if acts[j].RelayTakes? && Happens(acts, j) {
      var n, d := Exec(acts[..j]), acts[j].datagram;
      InvAlways(acts[..j]);
      RelayStepKeeps(acts[..j], n, d);
      assert GenuineToRelay(acts[..j], n, d);
      EncodingSurvivesRelay(d.bytes);
      RegistryIsHolder(acts[..j]);
      var f := Decode(d.bytes).value;
      assert f.msgType == Data ==> DataFrame(f.senderId, f.targetId, f.payload) == f;
      assert f.targetId in n.peers <==> Holder(acts[..j], f.targetId).Some?;
    }
  }

  /** Only the relay sends to clients. */
  lemma NewToClients(n: Net, act: Action, d: Datagram)
    requires d in Apply(n, act).toClients && d !in n.toClients
    ensures act.RelayTakes? && Enabled(n, act)
    ensures React(n.peers, act.datagram.addr, act.datagram.bytes).sent == Some(d)
  {
  }

  /** Being forwarded, in terms of the state before. */
  lemma ForwardedLast(acts: seq<Action>, act: Action, a: Addr, bytes: seq<Byte>)
    requires act.RelayTakes?
    ensures Forwarded(acts + [act], |acts|, a, bytes) <==>
              && Enabled(Exec(acts), act)
              && React(Exec(acts).peers, act.datagram.addr, act.datagram.bytes).sent == Some(Datagram(a, bytes))
  {
    assert (acts + [act])[..|acts|] == acts;
  }

  lemma NewWasForwarded(acts: seq<Action>, act: Action, d: Datagram)
    requires d in Exec(acts + [act]).toClients && d !in Exec(acts).toClients
    ensures Forwarded(acts + [act], |acts|, d.addr, d.bytes)
  {
    ExecStep(acts, act);
    NewToClients(Exec(acts), act, d);
    ForwardedLast(acts, act, d.addr, d.bytes);
  }

  /** Whatever is on its way to a session was forwarded to it by an earlier action. */
  lemma {:induction false} EverythingWasForwarded(acts: seq<Action>, d: Datagram)
    requires d in Exec(acts).toClients
    ensures exists j: nat | j < |acts| :: Forwarded(acts, j, d.addr, d.bytes)
  {
    var before, k := acts[..|acts| - 1], |acts| - 1;
    assert acts == before + [acts[k]];
    if d in Exec(before).toClients {
      EverythingWasForwarded(before, d);
      var j: nat :| j < k && Forwarded(before, j, d.addr, d.bytes);
      ForwardedInPrefix(acts, k, j, d.addr, d.bytes);
    } else {
      NewWasForwarded(before, acts[k], d);
    }
  }

  lemma ForwardedInPrefix(acts: seq<Action>, m: nat, j: nat, a: Addr, bytes: seq<Byte>)
    requires j < m <= |acts| && Forwarded(acts[..m], j, a, bytes)
    ensures Forwarded(acts, j, a, bytes)
  {
    assert acts[..m][..j] == acts[..j];
  }

  /** One live session per id: everything a session receives was forwarded while that session was the holder of
      its own id, that is, while its Hello or Keepalive was the last one the relay had taken for the id. */
  lemma ReceivedWhileHolder(acts: seq<Action>, i: nat)
    requires i < |acts| && acts[i].ClientTakes? && Happens(acts, i)
    ensures var a, bytes := acts[i].datagram.addr, acts[i].datagram.bytes;
            exists j: nat | j < i ::
              Forwarded(acts, j, a, bytes) && Holder(acts[..j], Exec(acts[..i]).sessions[a].who.ourId) == Some(a)
  {
    var d, before := acts[i].datagram, acts[..i];
    EverythingWasForwarded(before, d);
    var j: nat :| j < i && Forwarded(before, j, d.addr, d.bytes);
    ForwardedInPrefix(acts, i, j, d.addr, d.bytes);
    ForwardedIffHolder(acts, j, d.addr, d.bytes);
    assert GenuineToClient(before, Exec(before), d) by {
      InvAlways(before);
    }
  }

  /** The relay takes, by action j, a Hello or Keepalive for the id that session a sent. */
  predicate Refreshes(acts: seq<Action>, j: nat, id: PeerId, a: Addr)
    requires j < |acts|
  {
    acts[j].RelayTakes? && Happens(acts, j) && acts[j].datagram.addr == a && Registers(acts[j].datagram.bytes, id)
  }

  lemma {:induction false} HolderStays(acts: seq<Action>, k: nat, id: PeerId, a: Addr)
    requires k <= |acts| && Holder(acts[..k], id) != Some(a)
    requires forall j: nat | k <= j < |acts| :: !Refreshes(acts, j, id, a)
    ensures Holder(acts, id) != Some(a)
  {
    if k == |acts| {
      assert acts[..k] == acts;
    } else {
      var before, last := acts[..|acts| - 1], acts[|acts| - 1];
      assert before[..k] == acts[..k];
      forall j: nat | k <= j < |before|
        ensures !Refreshes(before, j, id, a)
      {
        assert before[..j] == acts[..j];
        assert !Refreshes(acts, j, id, a);
      }
      HolderStays(before, k, id, a);
      assert !Refreshes(acts, |acts| - 1, id, a);
      var ins := RelayInputs(acts);
      if ins != RelayInputs(before) {
        assert ins[..|ins| - 1] == RelayInputs(before);
      }
    }
  }

  lemma RefreshMakesHolder(acts: seq<Action>, k: nat, id: PeerId, b: Addr)
    requires k < |acts| && Refreshes(acts, k, id, b)
    ensures Holder(acts[..k + 1], id) == Some(b)
  {
    assert acts[..k + 1][..k] == acts[..k];
    var ins := RelayInputs(acts[..k + 1]);
    assert ins[|ins| - 1] == acts[k].datagram;
  }

  /** A superseded session gets no newly forwarded traffic for its id until the relay takes a Hello or Keepalive
      of it again. */
  lemma SupersededGetsNothing(acts: seq<Action>, k: nat, m: nat, id: PeerId, a: Addr, b: Addr, bytes: seq<Byte>)
    requires k < m < |acts| && a != b && Refreshes(acts, k, id, b)
    requires forall j: nat | k < j < m :: !Refreshes(acts, j, id, a)
    requires Decode(bytes).Ok? && Decode(bytes).value.targetId == id
    ensures !Forwarded(acts, m, a, bytes)
  {
    var upTo := acts[..m];
    assert upTo[..k + 1] == acts[..k + 1];
    RefreshMakesHolder(acts, k, id, b);
    forall j: nat | k + 1 <= j < m
      ensures !Refreshes(upTo, j, id, a)
    {
      assert upTo[..j] == acts[..j];
      assert !Refreshes(acts, j, id, a);
    }
    HolderStays(upTo, k + 1, id, a);
    ForwardedIffHolder(acts, m, a, bytes);
  }

  /** The relay taking a Hello that is deliverable makes its sender the holder. */
  lemma TakingHello(acts: seq<Action>, a: Addr, id: PeerId)
    requires Datagram(a, Wire(HelloFrame(id))) in Exec(acts).toRelay
    ensures var act := RelayTakes(Datagram(a, Wire(HelloFrame(id))));
            && Enabled(Exec(acts), act)
            && Exec(acts + [act]).toRelay == Exec(acts).toRelay
            && Exec(acts + [act]).sessions == Exec(acts).sessions
            && Holder(acts + [act], id) == Some(a)
  {
    var d := Datagram(a, Wire(HelloFrame(id)));
    InvAlways(acts);
    ExecStep(acts, RelayTakes(d));
    InputStep(acts, RelayTakes(d));
    DecodesIffPrinted(d.bytes, HelloFrame(id));
    var ins := RelayInputs(acts + [RelayTakes(d)]);
    assert ins[|ins| - 1] == d;
  }

  function HelloOf(a: Addr, id: PeerId): Datagram {
    Datagram(a, Wire(HelloFrame(id)))
  }

  /** Sessions 1 and 2 register the same id; the relay takes the Hello of 1, then that of 2, then that of 1 again. */
  function HelloAgain(id: PeerId, p: PeerId, q: PeerId): seq<Action> {
    [Register(1, Identity(id, p)), Register(2, Identity(id, q)),
     RelayTakes(HelloOf(1, id)), RelayTakes(HelloOf(2, id)), RelayTakes(HelloOf(1, id))]
  }

  /** Sessions 1 and 2 of the id, for the peers p and q. */
  function OnePerPeer(id: PeerId, p: PeerId, q: PeerId): map<Addr, Session> {
    map[1 := Session(Identity(id, p), true), 2 := Session(Identity(id, q), true)]
  }

  lemma TwoHellos(id: PeerId, p: PeerId, q: PeerId)
    ensures var n := Exec(HelloAgain(id, p, q)[..2]);
            HelloOf(1, id) in n.toRelay && HelloOf(2, id) in n.toRelay && n.sessions == OnePerPeer(id, p, q)
  {
    var first, second := Register(1, Identity(id, p)), Register(2, Identity(id, q));
    ExecStep([], first);
    InputStep([], first);
    ExecStep([first], second);
    InputStep([first], second);
    assert [] + [first] == [first] && [first] + [second] == HelloAgain(id, p, q)[..2];
  }

  lemma HelloAgainHolders(id: PeerId, p: PeerId, q: PeerId)
    ensures var acts := HelloAgain(id, p, q);
            && Holder(acts[..4], id) == Some(2) && Holder(acts, id) == Some(1)
            && Exec(acts[..4]).sessions == Exec(acts).sessions == OnePerPeer(id, p, q)
  {
    var acts := HelloAgain(id, p, q);
    TwoHellos(id, p, q);
    TakingHello(acts[..2], 1, id);
    assert acts[..2] + [acts[2]] == acts[..3];
    TakingHello(acts[..3], 2, id);
    assert acts[..3] + [acts[3]] == acts[..4];
    TakingHello(acts[..4], 1, id);
    assert acts[..4] + [acts[4]] == acts;
  }

  lemma SendByNewSession(acts: seq<Action>, b: Addr, who: Identity, payload: seq<Byte>)
    requires b !in Exec(acts).sessions && |payload| <= MAX_PAYLOAD
    ensures var sent := acts + [Register(b, who)] + [Send(b, payload)];
            && Datagram(b, Wire(DataFrame(who.ourId, who.peerId, payload))) in Exec(sent).toRelay
            && RelayInputs(sent) == RelayInputs(acts)
            && Exec(sent).sessions == Exec(acts).sessions[b := Session(who, true)]
  {
    ExecStep(acts, Register(b, who));
    InputStep(acts, Register(b, who));
    ExecStep(acts + [Register(b, who)], Send(b, payload));
    InputStep(acts + [Register(b, who)], Send(b, payload));
  }

  /** Data that the relay takes goes to the holder of its target. */
  lemma TakingData(acts: seq<Action>, d: Datagram, f: RelayFrame, a: Addr)
    requires d in Exec(acts).toRelay && d.bytes == Wire(f) && |f.payload| <= MAX_PAYLOAD && f.msgType == Data
    requires Holder(acts, f.targetId) == Some(a)
    ensures Forwarded(acts + [RelayTakes(d)], |acts|, a, d.bytes)
  {
    var all := acts + [RelayTakes(d)];
    assert all[..|acts|] == acts;
    InvAlways(acts);
    DecodesIffPrinted(d.bytes, f);
    ForwardedIffHolder(all, |acts|, a, d.bytes);
  }

  /** "Until it sends a keepalive" would be wrong: a late duplicate of the Hello of a superseded session makes it the
      holder again, and then traffic is forwarded to it. In this run no session ever sends a keepalive, 2 supersedes 1,
      and what session 3 sends to the id at the end is forwarded to 1. */
  lemma DuplicateHelloReinstates(id: PeerId, p: PeerId, q: PeerId, payload: seq<Byte>)
    requires |payload| <= MAX_PAYLOAD
    ensures var bytes := Wire(DataFrame(p, id, payload));
            var acts := HelloAgain(id, p, q)
                        + [Register(3, Identity(p, id))] + [Send(3, payload)] + [RelayTakes(Datagram(3, bytes))];
            Holder(acts[..4], id) == Some(2) && Forwarded(acts, 7, 1, bytes)
  {
    var before, f := HelloAgain(id, p, q), DataFrame(p, id, payload);
    var sent := before + [Register(3, Identity(p, id))] + [Send(3, payload)];
    HelloAgainHolders(id, p, q);
    SendByNewSession(before, 3, Identity(p, id), payload);
    TakingData(sent, Datagram(3, Wire(f)), f, 1);
    SamePrefix(before, [Register(3, Identity(p, id))], [Send(3, payload)], [RelayTakes(Datagram(3, Wire(f)))], 4);
  }

  lemma SamePrefix(s: seq<Action>, x: seq<Action>, y: seq<Action>, z: seq<Action>, n: nat)
    requires n <= |s|
    ensures (s + x + y + z)[..n] == s[..n]
  {
  }

  /** Action j is the relay taking a datagram that goes on to session a, whose filter lets the payload through. */
  predicate Hears(acts: seq<Action>, j: nat, a: Addr, payload: seq<Byte>)
    requires j < |acts|
  {
    && acts[j].RelayTakes? && Forwarded(acts, j, a, acts[j].datagram.bytes)
    && a in Exec(acts[..j]).sessions
    && Accepts(Exec(acts[..j]).sessions[a].who, acts[j].datagram.bytes) == Some(payload)
  }

  /** Data that the relay takes is heard by a session if and only if that session holds the target id at that moment
      and is the one registered for the very peer that sent it. */
  lemma HeardIffHolderForSender(acts: seq<Action>, j: nat, a: Addr, payload: seq<Byte>)
    requires j < |acts|
    ensures Hears(acts, j, a, payload) <==>
              && acts[j].RelayTakes? && Happens(acts, j)
              && Decode(acts[j].datagram.bytes).Ok?
              && var f := Decode(acts[j].datagram.bytes).value;
              && f.msgType == Data && f.payload == payload && Holder(acts[..j], f.targetId) == Some(a)
              && a in Exec(acts[..j]).sessions && Exec(acts[..j]).sessions[a].who.peerId == f.senderId
  {
    if acts[j].RelayTakes? && Happens(acts, j) {
      var d := acts[j].datagram;
      ForwardedIffHolder(acts, j, a, d.bytes);
      InvAlways(acts[..j]);
      assert GenuineToRelay(acts[..j], Exec(acts[..j]), d);
      EncodingSurvivesRelay(d.bytes);
    }
  }

  /** A device that registers its id once per peer does not hear all of them: when the relay took the Hello for q last,
      what p sends goes to the session for q, which drops it; the session for p would have let it through. */
  lemma PeerGoesUnheard(id: PeerId, p: PeerId, q: PeerId, payload: seq<Byte>)
    requires p != q && |payload| <= MAX_PAYLOAD
    ensures var bytes := Wire(DataFrame(p, id, payload));
            var acts := HelloAgain(id, p, q)[..4]
                        + [Register(3, Identity(p, id))] + [Send(3, payload)] + [RelayTakes(Datagram(3, bytes))];
            var n := Exec(acts[..6]);
            && Forwarded(acts, 6, 2, bytes)
            && 1 in n.sessions && n.sessions[1].open && Accepts(n.sessions[1].who, bytes) == Some(payload)
            && 2 in n.sessions && n.sessions[2].open && Accepts(n.sessions[2].who, bytes) == None
            && forall a: Addr, m: seq<Byte> :: !Hears(acts, 6, a, m)
  {
    var before, f := HelloAgain(id, p, q)[..4], DataFrame(p, id, payload);
    var sent := before + [Register(3, Identity(p, id))] + [Send(3, payload)];
    var acts := sent + [RelayTakes(Datagram(3, Wire(f)))];
    HelloAgainHolders(id, p, q);
    SendByNewSession(before, 3, Identity(p, id), payload);
    TakingData(sent, Datagram(3, Wire(f)), f, 2);
    assert acts[..6] == sent;
    DecodesIffPrinted(Wire(f), f);
  }

  /** A device that registers its id once per peer hears only the peer of the latest session: as long as no other
      session of the id refreshes itself, what is forwarded for the id goes to that session, whose filter passes it
      exactly when it comes from that session's own peer. */
  lemma OnlyOnePeerHeard(acts: seq<Action>, k: nat, m: nat, id: PeerId, b: Addr, a: Addr, bytes: seq<Byte>)
    requires k < m < |acts| && Refreshes(acts, k, id, b)
    requires forall j: nat, c: Addr | k < j < m && c != b :: !Refreshes(acts, j, id, c)
    requires Forwarded(acts, m, a, bytes) && Decode(bytes).Ok? && Decode(bytes).value.targetId == id
    ensures a == b && b in Exec(acts[..m]).sessions
    ensures Accepts(Exec(acts[..m]).sessions[b].who, bytes).Some?
       <==> Decode(bytes).value.senderId == Exec(acts[..m]).sessions[b].who.peerId
  {
    if a != b {
      SupersededGetsNothing(acts, k, m, id, a, b, bytes);
    }
    ForwardedIffHolder(acts, m, a, bytes);
    InvAlways(acts[..m]);
    RegistryIsHolder(acts[..m]);
    assert GenuineToRelay(acts[..m], Exec(acts[..m]), acts[m].datagram);
    EncodingSurvivesRelay(bytes);
  }

  /** Session 1 registers, session 3 of its peer sends to it, and the datagram arrives. */
  function Delivery(id: PeerId, p: PeerId, payload: seq<Byte>): seq<Action> {
    var bytes := Wire(DataFrame(p, id, payload));
    [] + [Register(1, Identity(id, p))] + [RelayTakes(HelloOf(1, id))]
    + [Register(3, Identity(p, id))] + [Send(3, payload)] + [RelayTakes(Datagram(3, bytes))]
    + [ClientTakes(Datagram(1, bytes))]
  }

  lemma OneHolder(id: PeerId, p: PeerId)
    ensures var acts := [] + [Register(1, Identity(id, p))] + [RelayTakes(HelloOf(1, id))];
            Holder(acts, id) == Some(1) && Exec(acts).sessions == map[1 := Session(Identity(id, p), true)]
  {
    ExecStep([], Register(1, Identity(id, p)));
    InputStep([], Register(1, Identity(id, p)));
    TakingHello([] + [Register(1, Identity(id, p))], 1, id);
  }

  lemma DeliveryReturns(id: PeerId, p: PeerId, payload: seq<Byte>)
    requires |payload| <= MAX_PAYLOAD
    ensures |Delivery(id, p, payload)| == 6 && Returns(Delivery(id, p, payload), 5) == Some(payload)
  {
    var f := DataFrame(p, id, payload);
    var d := Datagram(3, Wire(f));
    var before := [] + [Register(1, Identity(id, p))] + [RelayTakes(HelloOf(1, id))];
    var sent := before + [Register(3, Identity(p, id))] + [Send(3, payload)];
    OneHolder(id, p);
    SendByNewSession(before, 3, Identity(p, id), payload);
    TakingData(sent, d, f, 1);
    ArrivesAt(sent, d, 1);
    ReturnsLast(sent + [RelayTakes(d)], 1, f);
    assert Delivery(id, p, payload) == sent + [RelayTakes(d)] + [ClientTakes(Datagram(1, Wire(f)))];
  }

  lemma ReturnsLast(acts: seq<Action>, a: Addr, f: RelayFrame)
    requires Open(Exec(acts), a) && Datagram(a, Wire(f)) in Exec(acts).toClients
    requires |f.payload| <= MAX_PAYLOAD && f.msgType == Data && Exec(acts).sessions[a].who.peerId == f.senderId
    ensures Returns(acts + [ClientTakes(Datagram(a, Wire(f)))], |acts|) == Some(f.payload)
  {
    assert (acts + [ClientTakes(Datagram(a, Wire(f)))])[..|acts|] == acts;
    DecodesIffPrinted(Wire(f), f);
  }

  /** What the relay forwards can be delivered. */
  lemma ArrivesAt(acts: seq<Action>, d: Datagram, a: Addr)
    requires Forwarded(acts + [RelayTakes(d)], |acts|, a, d.bytes)
    ensures var n := Exec(acts + [RelayTakes(d)]);
            Datagram(a, d.bytes) in n.toClients && n.sessions == Exec(acts).sessions
  {
    ExecStep(acts, RelayTakes(d));
    ForwardedLast(acts, RelayTakes(d), a, d.bytes);
  }
}
