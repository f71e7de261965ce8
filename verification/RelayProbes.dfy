/** The probes of the relay pool against the relay itself: `probe_all` of crates/tunnel/src/relay_pool.rs waits for an
    echo that services/relay/src/main.rs never sends. */
module RelayProbes {
  import opened Wrappers
  import opened Bytes
  import RelayProto
  import RelayServer
  import opened RelayPool

  /** The single octet "P". */
  const PROBE: seq<Byte> := [0x50]

  // ── The relay ──

  /** All a relay ever got from a socket are probes. */
  predicate OnlyProbes(inputs: seq<RelayServer.Datagram>, src: RelayServer.Addr) {
    forall d <- inputs :: d.addr == src ==> d.bytes == PROBE
  }

  lemma {:induction false} ProbesDoNotRegister(
      inputs: seq<RelayServer.Datagram>, src: RelayServer.Addr, id: RelayProto.PeerId)
    requires OnlyProbes(inputs, src)
    ensures RelayServer.LastRegistration(inputs, id) != Some(src)
  {
    if inputs == [] {
    } else {
      var last := inputs[|inputs| - 1];
      assert last in inputs;
      ProbesDoNotRegister(inputs[..|inputs| - 1], src, id);
    }
  }

  /** Whatever else a relay receives, it never sends anything to a socket that only probes. */
  lemma {:induction false} ProbesGetNoEcho(inputs: seq<RelayServer.Datagram>, src: RelayServer.Addr)
    requires OnlyProbes(inputs, src)
    ensures forall d <- RelayServer.Forwards(inputs) :: d.addr != src
  {
    if inputs == [] {
    } else {
      var before := inputs[..|inputs| - 1];
      ProbesGetNoEcho(before, src);
      var r := RelayProto.Decode(RelayServer.Received(inputs[|inputs| - 1].bytes));
      if r.Ok? {
        ProbesDoNotRegister(before, src, r.value.targetId);
      }
    }
  }

  // ── The pool ──

  /** An echo is a datagram that the relay sent to the socket of the probe, from which it got nothing but probes. */
  ghost predicate FromRelay(p: Probe) {
    p.Echo? ==> exists inputs: seq<RelayServer.Datagram>, src: RelayServer.Addr ::
                  OnlyProbes(inputs, src) && exists d <- RelayServer.Forwards(inputs) :: d.addr == src
  }

  lemma NeverEcho(p: Probe)
    requires FromRelay(p)
    ensures !p.Echo?
  {
    if p.Echo? {
      var inputs: seq<RelayServer.Datagram>, src: RelayServer.Addr :|
        OnlyProbes(inputs, src) && exists d <- RelayServer.Forwards(inputs) :: d.addr == src;
      ProbesGetNoEcho(inputs, src);
    }
  }

  /** A pool that starts afresh and goes through rounds of probes of relays. */
  ghost predicate ProbeRun(run: seq<Pool>, rounds: seq<seq<Probe>>) {
    && |run| == |rounds| + 1 && |run[0].servers| > 0 && run[0].active == 0
    && (forall s <- run[0].servers :: s.latency == None && s.healthy && s.failures == 0)
    && (forall k: nat | k < |rounds| :: ProbesAll(run[k], rounds[k], run[k + 1]))
    && (forall k: nat, i: nat | k < |rounds| && i < |rounds[k]| :: FromRelay(rounds[k][i]))
  }

  /** The socket could be bound in each of the first k probes of server i. */
  ghost predicate AlwaysBound(rounds: seq<seq<Probe>>, k: nat, i: nat)
    requires k <= |rounds|
  {
    forall j: nat | j < k && i < |rounds[j]| :: rounds[j][i] != BindFailed
  }

  /** After k rounds no server was ever measured, and a server is healthy exactly when there were at most two rounds and
      its socket could always be bound. */
  lemma {:induction false} AfterRounds(run: seq<Pool>, rounds: seq<seq<Probe>>, k: nat, i: nat)
    requires ProbeRun(run, rounds) && k <= |rounds| && i < |run[0].servers|
    ensures |run[k].servers| == |run[0].servers|
    ensures var s := run[k].servers[i];
            s.latency == None && s.failures == k && (s.healthy <==> k <= 2 && AlwaysBound(rounds, k, i))
  {
    if k == 0 {
      assert run[0].servers[i] in run[0].servers;
    } else {
      AfterRounds(run, rounds, k - 1, i);
      assert ProbesAll(run[k - 1], rounds[k - 1], run[k - 1 + 1]);
      NeverEcho(rounds[k - 1][i]);
      assert AlwaysBound(rounds, k, i) <==> AlwaysBound(rounds, k - 1, i) && rounds[k - 1][i] != BindFailed;
    }
  }

  lemma NoneHealthyAfterThree(run: seq<Pool>, rounds: seq<seq<Probe>>, k: nat)
    requires ProbeRun(run, rounds) && 3 <= k <= |rounds|
    ensures !SomeHealthy(run[k].servers)
  {
    AfterRounds(run, rounds, k, 0);
    forall i: nat | i < |run[k].servers|
      ensures !run[k].servers[i].healthy
    {
      AfterRounds(run, rounds, k, i);
    }
  }

  /** Latency is never known and selection never gets anywhere: from the third round on no server is healthy and the
      active one never changes again, by probing or by a failover. */
  lemma {:induction false} ProbingSettles(run: seq<Pool>, rounds: seq<seq<Probe>>, k: nat)
    requires ProbeRun(run, rounds) && 3 <= k <= |rounds|
    ensures !SomeHealthy(run[k].servers) && run[k].active == run[3].active
    ensures forall q: Pool | run[k].active < |run[k].servers| && FailsOver(run[k], q) :: q.active == run[k].active
  {
    NoneHealthyAfterThree(run, rounds, k);
    if k == 3 {
    } else {
      ProbingSettles(run, rounds, k - 1);
      assert ProbesAll(run[k - 1], rounds[k - 1], run[k - 1 + 1]);
    }
  }

  /** As long as the socket for the first server can be bound, the first server is the active one in every round. */
  lemma {:induction false} FirstStaysActive(run: seq<Pool>, rounds: seq<seq<Probe>>, k: nat)
    requires ProbeRun(run, rounds) && k <= |rounds| && AlwaysBound(rounds, k, 0)
    ensures run[k].active == 0
  {
    if k == 0 {
    } else {
      assert AlwaysBound(rounds, k - 1, 0);
      FirstStaysActive(run, rounds, k - 1);
      assert ProbesAll(run[k - 1], rounds[k - 1], run[k - 1 + 1]);
      if k >= 3 {
        NoneHealthyAfterThree(run, rounds, k);
      } else {
        AfterRounds(run, rounds, k, 0);
        AfterRounds(run, rounds, k, run[k].active);
        assert run[k].servers[0].healthy;
      }
    }
  }

  lemma OneMoreRound(run: seq<Pool>, rounds: seq<seq<Probe>>, n: nat, q: Pool)
    requires n < |rounds| && ProbeRun(run, rounds[..n]) && ProbesAll(run[n], rounds[n], q)
    requires forall i: nat | i < |rounds[n]| :: FromRelay(rounds[n][i])
    ensures ProbeRun(run + [q], rounds[..n + 1])
  {
    var more, upTo := run + [q], rounds[..n + 1];
    forall k: nat | k < |upTo|
      ensures ProbesAll(more[k], upTo[k], more[k + 1])
    {
      if k < n {
        assert ProbesAll(run[k], rounds[..n][k], run[k + 1]);
      }
    }
    forall k: nat, i: nat | k < |upTo| && i < |upTo[k]|
      ensures FromRelay(upTo[k][i])
    {
      if k < n {
        assert FromRelay(rounds[..n][k][i]);
      }
    }
  }

  /** What is used after n rounds is the address of the active server then. */
  ghost predicate UsesActive(addrs: seq<Addr>, run: seq<Pool>, used: seq<Addr>) {
    && |used| == |run|
    && forall k: nat | k < |run| :: run[k].active < |addrs| && used[k] == addrs[run[k].active]
  }

  predicate AtAddrs(addrs: seq<Addr>, p: Pool) {
    |p.servers| == |addrs| && forall i: nat | i < |addrs| :: p.servers[i].addr == addrs[i]
  }

  /** The daemon after some rounds. */
  ghost predicate Refreshed(addrs: seq<Addr>, run: seq<Pool>, rounds: seq<seq<Probe>>, used: seq<Addr>, p: Pool) {
    ProbeRun(run, rounds) && run[|rounds|] == p && UsesActive(addrs, run, used) && AtAddrs(addrs, p)
  }

  lemma OneMoreTick(
      addrs: seq<Addr>, run: seq<Pool>, rounds: seq<seq<Probe>>, n: nat, used: seq<Addr>, p: Pool, q: Pool)
    requires n < |rounds| && Refreshed(addrs, run, rounds[..n], used, p) && ProbesAll(p, rounds[n], q)
    requires q.active < |q.servers| && forall i: nat | i < |rounds[n]| :: FromRelay(rounds[n][i])
    ensures Refreshed(addrs, run + [q], rounds[..n + 1], used + [q.servers[q.active].addr], q)
  {
    OneMoreRound(run, rounds, n, q);
  }

  lemma UsedOverRounds(addrs: seq<Addr>, run: seq<Pool>, rounds: seq<seq<Probe>>, used: seq<Addr>)
    requires ProbeRun(run, rounds) && UsesActive(addrs, run, used)
    ensures used[0] == addrs[0]
    ensures forall k: nat | 3 <= k <= |rounds| :: used[k] == used[3]
    ensures forall k: nat | k <= |rounds| && AlwaysBound(rounds, k, 0) :: used[k] == addrs[0]
  {
    forall k: nat | 3 <= k <= |rounds|
      ensures used[k] == used[3]
    {
      ProbingSettles(run, rounds, k);
    }
    forall k: nat | k <= |rounds| && AlwaysBound(rounds, k, 0)
      ensures used[k] == addrs[0]
    {
      FirstStaysActive(run, rounds, k);
    }
  }

  // ── The daemon ──

  /** The daemon connects to the active relay, then probes and connects again on every tick; these are the addresses it
      connects to. */
  method Refresh(addrs: seq<Addr>, rounds: seq<seq<Probe>>) returns (used: seq<Addr>)
    requires addrs != [] && forall round <- rounds :: |round| == |addrs|
    requires forall k: nat, i: nat | k < |rounds| && i < |rounds[k]| :: FromRelay(rounds[k][i])
    ensures |used| == |rounds| + 1 && used[0] == addrs[0]
    ensures forall k: nat | 3 <= k <= |rounds| :: used[k] == used[3]
    ensures forall k: nat | k <= |rounds| && AlwaysBound(rounds, k, 0) :: used[k] == addrs[0]
  {
    var pool := new RelayPool(addrs);
    ghost var run := [pool.View()];
    var addr := pool.ActiveAddr();
    used := [addr];
    for n := 0 to |rounds|
      invariant pool.Valid() && Refreshed(addrs, run, rounds[..n], used, pool.View())
    {
      assert rounds[n] in rounds;
      ghost var was := pool.View();
      pool.ProbeAll(rounds[n]);
      addr := pool.ActiveAddr();
      OneMoreTick(addrs, run, rounds, n, used, was, pool.View());
      run, used := run + [pool.View()], used + [addr];
    }
    assert rounds[..|rounds|] == rounds;
    UsedOverRounds(addrs, run, rounds, used);
  }
}
