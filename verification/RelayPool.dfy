/** Selection and failover among relay servers: crates/tunnel/src/relay_pool.rs. */
module RelayPool {
  import opened Wrappers

  type Addr = nat

  /** `Duration::MAX` in nanoseconds. No round trip lasts that long. */
  const DURATION_MAX: nat := 0x1_0000_0000_0000_0000 * 1_000_000_000 - 1

  type Latency = n: nat | n < DURATION_MAX

  datatype Server = Server(addr: Addr, latency: Option<Latency>, healthy: bool, failures: nat)

  /** What probing one server comes to. */
  datatype Probe = Echo(rtt: Latency) | NoEcho | BindFailed

  // ── The declarative choice ──

  /** Server i is preferred to server j: measured before unmeasured, then by latency, then by index. */
  predicate Before(servers: seq<Server>, i: nat, j: nat)
    requires i < |servers| && j < |servers|
  {
    match (servers[i].latency, servers[j].latency)
    case (Some(a), Some(b)) => a < b || (a == b && i < j)
    case (Some(_), None) => true
    case (None, Some(_)) => false
    case (None, None) => i < j
  }

  ghost predicate SomeHealthy(servers: seq<Server>) {
    exists i: nat | i < |servers| :: servers[i].healthy
  }

  /** Healthy, and preferred to every other healthy server. */
  ghost predicate IsChoice(servers: seq<Server>, i: nat) {
    && i < |servers| && servers[i].healthy
    && forall j: nat | j < |servers| && servers[j].healthy && j != i :: Before(servers, i, j)
  }

  /** In other words: the first index of least latency among the healthy measured servers, else the first healthy. */
  lemma ChoiceMeans(servers: seq<Server>, i: nat)
    ensures IsChoice(servers, i) <==>
              && i < |servers| && servers[i].healthy
              && (servers[i].latency.Some? ==>
                    forall j: nat | j < |servers| && servers[j].healthy && servers[j].latency.Some? ::
                      && servers[i].latency.value <= servers[j].latency.value
                      && (j < i ==> servers[i].latency.value < servers[j].latency.value))
              && (servers[i].latency.None? ==>
                    forall j: nat | j < |servers| && servers[j].healthy :: servers[j].latency.None? && i <= j)
  {
  }

  /** There is never more than one choice. */
  lemma ChoiceIsUnique(servers: seq<Server>, i: nat, j: nat)
    requires IsChoice(servers, i) && IsChoice(servers, j)
    ensures i == j
  {
  }

  // ── The pool ──

  /** A pool in any state the code reaches. */
  ghost predicate PoolFine(servers: seq<Server>, active: nat) {
    && active < |servers|
    && (forall s <- servers :: s.healthy ==> s.failures <= 2)
    && (SomeHealthy(servers) ==> IsChoice(servers, active))
  }

  function Failed(s: Server): Server {
    s.(failures := s.failures + 1, healthy := s.healthy && s.failures + 1 < 3)
  }

  function Probed(s: Server, p: Probe): Server {
    match p
    case Echo(rtt) => s.(latency := Some(rtt), healthy := true, failures := 0)
    case NoEcho => Failed(s)
    case BindFailed => s.(failures := s.failures + 1, healthy := false)
  }

  datatype Pool = Pool(servers: seq<Server>, active: nat)

  /** One round of probes, between two pools. */
  ghost predicate ProbesAll(p: Pool, outcomes: seq<Probe>, q: Pool) {
    && |q.servers| == |p.servers| == |outcomes|
    && (forall i: nat | i < |p.servers| :: q.servers[i] == Probed(p.servers[i], outcomes[i]))
    && if SomeHealthy(q.servers) then IsChoice(q.servers, q.active) else q.active == p.active
  }

  /** One failover, between two pools. */
  ghost predicate FailsOver(p: Pool, q: Pool)
    requires p.active < |p.servers|
  {
    && q.servers == FailedAt(p.servers, p.active)
    && if SomeHealthy(q.servers) then IsChoice(q.servers, q.active) else q.active == p.active
  }

  class RelayPool {
    var servers: seq<Server>
    var active: nat

    ghost predicate Valid()
      reads this
    {
      PoolFine(servers, active)
    }

    ghost function View(): Pool
      reads this
    {
      Pool(servers, active)
    }

    constructor (addrs: seq<Addr>)
      requires addrs != []
      ensures Valid() && active == 0
      ensures |servers| == |addrs|
      ensures forall i: nat | i < |addrs| :: servers[i] == Server(addrs[i], None, true, 0)
    {
      servers := seq(|addrs|, i requires 0 <= i < |addrs| => Server(addrs[i], None, true, 0));
      active := 0;
      new;
      assert servers[0].healthy;
    }

    method ActiveAddr() returns (addr: Addr)
      requires Valid()
      ensures addr == servers[active].addr
    {
      addr := servers[active].addr;
    }

    /** The single pass: it ends on the declarative choice, or keeps the active server when none is healthy. */
    method SelectBest()
      requires active < |servers|
      modifies this`active
      ensures active < |servers|
      ensures if SomeHealthy(servers) then IsChoice(servers, active) else active == old(active)
    {
      var best: Option<nat> := None;
      var bestLatency := DURATION_MAX;
      var i := 0;
      while i < |servers|
        invariant 0 <= i <= |servers|
        invariant best.None? ==> bestLatency == DURATION_MAX && forall j | 0 <= j < i :: !servers[j].healthy
        invariant best.Some? ==>
                    && best.value < i && IsChoice(servers[..i], best.value)
                    && bestLatency == if servers[best.value].latency.Some? then servers[best.value].latency.value
                                      else DURATION_MAX
      {
        ghost var seen, more := servers[..i], servers[..i + 1];
        assert more == seen + [servers[i]];
        var server := servers[i];
        if server.healthy {
          if server.latency.Some? {
            if server.latency.value < bestLatency {
              bestLatency := server.latency.value;
              best := Some(i);
            }
          } else if best.None? {
            best := Some(i);
          }
        }
        i := i + 1;
      }
      assert servers[..i] == servers;
      if best.Some? {
        active := best.value;
      }
    }

    method ProbeAll(outcomes: seq<Probe>)
      requires Valid() && |outcomes| == |servers|
      modifies this
      ensures Valid() && ProbesAll(old(View()), outcomes, View())
    {
      for i := 0 to |servers|
        invariant |servers| == |old(servers)| && active == old(active)
        invariant forall j: nat | j < i :: servers[j] == Probed(old(servers)[j], outcomes[j])
        invariant forall j: nat | i <= j < |servers| :: servers[j] == old(servers)[j]
      {
        var server := servers[i];
        match outcomes[i] {
          case Echo(rtt) =>
            server := server.(latency := Some(rtt), healthy := true, failures := 0);
          case NoEcho =>
            server := server.(failures := server.failures + 1);
            if server.failures >= 3 {
              server := server.(healthy := false);
            }
          case BindFailed =>
            server := server.(failures := server.failures + 1, healthy := false);
        }
        servers := servers[i := server];
      }
      forall s | s in servers
        ensures s.healthy ==> s.failures <= 2
      {
        var i: nat :| i < |servers| && servers[i] == s;
        assert old(servers)[i] in old(servers);
      }
      SelectBest();
    }

    method Failover() returns (switched: bool)
      requires Valid()
      modifies this
      ensures Valid() && FailsOver(old(View()), View())
      ensures switched <==> active != old(active)
    {
      var was := active;
      servers := servers[was := servers[was].(failures := servers[was].failures + 1)];
      if servers[was].failures >= 3 {
        servers := servers[was := servers[was].(healthy := false)];
      }
      assert servers == FailedAt(old(servers), was);
      forall s | s in servers
        ensures s.healthy ==> s.failures <= 2
      {
        var i: nat :| i < |servers| && servers[i] == s;
        assert old(servers)[i] in old(servers);
      }
      SelectBest();
      switched := active != was;
    }
  }

  function FailedAt(servers: seq<Server>, i: nat): seq<Server>
    requires i < |servers|
  {
    servers[i := Failed(servers[i])]
  }

  // ── Runs of failovers with no probe in between ──

  ghost predicate FailoverRun(run: seq<Pool>) {
    && run != [] && PoolFine(run[0].servers, run[0].active)
    && forall k: nat | k + 1 < |run| :: run[k].active < |run[k].servers| && FailsOver(run[k], run[k + 1])
  }

  /** How many more failures the healthy servers can take. */
  function Credit(servers: seq<Server>): int {
    if servers == [] then 0
    else Credit(servers[1..]) + (if servers[0].healthy then 3 - servers[0].failures else 0)
  }

  function HealthyCount(servers: seq<Server>): nat {
    if servers == [] then 0 else HealthyCount(servers[1..]) + (if servers[0].healthy then 1 else 0)
  }

  lemma {:induction false} SumsAtFailure(servers: seq<Server>, i: nat)
    requires i < |servers|
    ensures var s := servers[i];
            && Credit(FailedAt(servers, i)) ==
                 Credit(servers) - (if s.healthy then if s.failures < 2 then 1 else 3 - s.failures else 0)
            && HealthyCount(FailedAt(servers, i)) ==
                 HealthyCount(servers) - (if s.healthy && s.failures >= 2 then 1 else 0)
  {
    var after := FailedAt(servers, i);
    if i == 0 {
      assert after[1..] == servers[1..];
    } else {
      assert after[1..] == FailedAt(servers[1..], i - 1);
      SumsAtFailure(servers[1..], i - 1);
    }
  }

  lemma {:induction false} NoneHealthy(servers: seq<Server>)
    requires forall s <- servers :: s.healthy ==> s.failures <= 2
    ensures HealthyCount(servers) == 0 <==> !SomeHealthy(servers)
    ensures Credit(servers) >= HealthyCount(servers)
    ensures HealthyCount(servers) == 0 ==> Credit(servers) == 0
  {
    if servers == [] {
    } else {
      forall s | s in servers[1..] ensures s.healthy ==> s.failures <= 2 {
        assert s in servers;
      }
      NoneHealthy(servers[1..]);
      assert servers[0] in servers;
      if SomeHealthy(servers) {
        var i: nat :| i < |servers| && servers[i].healthy;
        assert i > 0 ==> servers[1..][i - 1].healthy;
      }
      if SomeHealthy(servers[1..]) {
        var i: nat :| i < |servers[1..]| && servers[1..][i].healthy;
        assert servers[i + 1].healthy;
      }
    }
  }

  /** One failover: while some server is healthy, the active one is charged exactly one failure; the active server
      changes exactly when that exhausts it and another is left. */
  lemma OneFailover(p: Pool, q: Pool)
    requires PoolFine(p.servers, p.active) && FailsOver(p, q)
    ensures PoolFine(q.servers, q.active)
    ensures Credit(q.servers) == if Credit(p.servers) > 0 then Credit(p.servers) - 1 else 0
    ensures HealthyCount(p.servers) - HealthyCount(q.servers)
            == if HealthyCount(p.servers) > 0 && p.servers[p.active].failures == 2 then 1 else 0
    ensures q.active != p.active <==> 0 < HealthyCount(q.servers) < HealthyCount(p.servers)
  {
    forall s | s in q.servers
      ensures s.healthy ==> s.failures <= 2
    {
      var i: nat :| i < |q.servers| && q.servers[i] == s;
      assert p.servers[i] in p.servers;
    }
    SumsAtFailure(p.servers, p.active);
    NoneHealthy(p.servers);
    NoneHealthy(q.servers);
    assert p.servers[p.active] in p.servers;
    if SomeHealthy(p.servers) && p.servers[p.active].failures < 2 {
      assert q.servers[p.active].healthy;
      assert IsChoice(q.servers, p.active);
      ChoiceIsUnique(q.servers, p.active, q.active);
    }
  }

  /** The calls among the first n that return true. */
  function Switches(run: seq<Pool>, n: nat): nat
    requires n < |run|
  {
    if n == 0 then 0 else Switches(run, n - 1) + (if run[n].active != run[n - 1].active then 1 else 0)
  }

  /** The state after k failovers, from any pool with at least one healthy server. */
  lemma {:induction false} AfterFailovers(run: seq<Pool>, k: nat)
    requires FailoverRun(run) && k < |run| && SomeHealthy(run[0].servers)
    ensures PoolFine(run[k].servers, run[k].active)
    ensures Credit(run[k].servers) == if k <= Credit(run[0].servers) then Credit(run[0].servers) - k else 0
    ensures var h := HealthyCount(run[k].servers);
            && h <= HealthyCount(run[0].servers)
            && Switches(run, k) == HealthyCount(run[0].servers) - if h > 0 then h else 1
  {
    NoneHealthy(run[0].servers);
    if k == 0 {
    } else {
      AfterFailovers(run, k - 1);
      assert FailsOver(run[k - 1], run[k - 1 + 1]);
      OneFailover(run[k - 1], run[k]);
    }
  }

  /** Failover exhaustion: M = Credit goes down by exactly 1 with each call until it is 0; by then exactly H - 1 calls
      have returned true, and from then on the active server never changes again. */
  lemma FailoverExhausts(run: seq<Pool>, k: nat)
    requires FailoverRun(run) && SomeHealthy(run[0].servers) && Credit(run[0].servers) <= k < |run|
    ensures Credit(run[k].servers) == 0 && !SomeHealthy(run[k].servers)
    ensures Switches(run, k) == HealthyCount(run[0].servers) - 1
    ensures Credit(run[0].servers) >= 0 && run[k].active == run[Credit(run[0].servers)].active
    decreases k
  {
    var m := Credit(run[0].servers);
    NoneHealthy(run[0].servers);
    AfterFailovers(run, k);
    NoneHealthy(run[k].servers);
    if k > m {
      FailoverExhausts(run, k - 1);
      assert FailsOver(run[k - 1], run[k - 1 + 1]);
    }
  }

  /** Servers are abandoned in order of preference: at any moment, one that has been given up was preferred to every
      one that is still healthy. */
  lemma {:induction false} AbandonedInOrder(run: seq<Pool>, k: nat, i: nat, j: nat)
    requires FailoverRun(run) && k < |run| && SomeHealthy(run[0].servers)
    requires i < |run[0].servers| && j < |run[0].servers| && |run[k].servers| == |run[0].servers|
    requires run[0].servers[i].healthy && !run[k].servers[i].healthy && run[k].servers[j].healthy
    ensures Before(run[0].servers, i, j)
  {
    assert FailsOver(run[k - 1], run[k - 1 + 1]);
    AfterFailovers(run, k - 1);
    SameLatencies(run, k - 1);
    var p := run[k - 1];
    if p.servers[i].healthy {
      assert i == p.active && IsChoice(p.servers, i);
      assert Before(p.servers, i, j);
    } else {
      AbandonedInOrder(run, k - 1, i, j);
    }
  }

  lemma {:induction false} SameLatencies(run: seq<Pool>, k: nat)
    requires FailoverRun(run) && k < |run|
    ensures |run[k].servers| == |run[0].servers|
    ensures forall i: nat | i < |run[0].servers| :: run[k].servers[i].latency == run[0].servers[i].latency
  {
    if k == 0 {
    } else {
      SameLatencies(run, k - 1);
      assert FailsOver(run[k - 1], run[k - 1 + 1]);
    }
  }
}
