/** What registration promises: alone in any reachable state, in sequence from the empty tables, and interleaved with
    other registrations. */
module ControlRegistration {
  import opened Wrappers
  import opened Bytes
  import opened ControlDb
  import opened ControlRuns

  // ── A new key in any reachable state ──

  /** A request for a key that is not registered, whose handler draws an id that is not in use. */
  ghost predicate IsNew(db: Db, req: Request) {
    FindByPublicKey(db, req.publicKey) == None && req.newId !in db.devices
  }

  /** The condition a caller can check on the tables: room in the pool, and base + |pool| held by no device. */
  ghost predicate HasRoom(cfg: Config, db: Db)
    requires cfg.Valid()
  {
    && |db.pool| <= cfg.maxOffset
    && forall id <- db.devices :: db.devices[id].ipv4 != Text(cfg.base + |db.pool|)
  }

  /** Registering a new key succeeds if and only if there is room, and then the device gets base + |pool|. A failure
      leaves the devices alone, and the pool too unless base + |pool| itself is what it gains. */
  lemma NewKeyOutcome(cfg: Config, db: Db, req: Request)
    requires cfg.Valid() && Consistent(cfg, db) && IsNew(db, req)
    ensures var (after, response) := Register(cfg, db, req);
            && (response.Registered? <==> HasRoom(cfg, db))
            && (response == Conflict <==> |db.pool| > cfg.maxOffset)
            && (if HasRoom(cfg, db) then
                  var ip := cfg.base + |db.pool|;
                  var status := if db.devices == map[] then Approved else Pending;
                  && response == Registered(req.newId, ip, status)
                  && after.devices == db.devices[req.newId := NewDevice(req, ip, status)]
                  && after.pool == db.pool[ip := true]
                else
                  && after.devices == db.devices
                  && (after.pool == db.pool ||
                      (|db.pool| <= cfg.maxOffset && cfg.base + |db.pool| !in db.pool
                       && after.pool == db.pool[cfg.base + |db.pool| := true])))
  {
    NoneFree(cfg, db);
    assert |db.devices| == 0 <==> db.devices == map[];
    RegisterNew(cfg, db, req);
    if |db.pool| <= cfg.maxOffset {
      var ip := cfg.base + |db.pool|;
      assert ip in db.pool ==> db.pool[ip := true] == db.pool;
    }
  }

  /** The handler in one go, when neither the key is known nor a row free. */
  lemma RegisterNew(cfg: Config, db: Db, req: Request)
    requires cfg.Valid() && FindByPublicKey(db, req.publicKey) == None && FindFree(db) == None
    ensures Register(cfg, db, req) ==
              if |db.pool| > cfg.maxOffset then (db, Conflict)
              else
                var ip := cfg.base + |db.pool|;
                var d := NewDevice(req, ip, if |db.devices| == 0 then Approved else Pending);
                var db' := InsertIp(db, ip);
                (InsertDevice(db', req.newId, d),
                 if CanInsert(db', req.newId, d) then Registered(req.newId, ip, d.status) else InternalError)
  {
    AloneStep(cfg, db, Look(req));
    FromSelect(cfg, db, req);
    if |db.pool| <= cfg.maxOffset {
      var ip := cfg.base + |db.pool|;
      FromFirst(cfg, InsertIp(db, ip), req, ip);
    }
  }

  /** From the allocation on, when no row is free. */
  lemma FromSelect(cfg: Config, db: Db, req: Request)
    requires cfg.Valid() && FindFree(db) == None
    ensures RunAlone(cfg, db, SelectFree(req)) ==
              if |db.pool| > cfg.maxOffset then (db, Answered(req, Conflict))
              else RunAlone(cfg, InsertIp(db, cfg.base + |db.pool|), First(req, cfg.base + |db.pool|))
  {
    AloneStep(cfg, db, SelectFree(req));
    assert Step(cfg, db, SelectFree(req)) == (db, Count(req));
    FromCount(cfg, db, req);
  }

  lemma FromCount(cfg: Config, db: Db, req: Request)
    requires cfg.Valid()
    ensures RunAlone(cfg, db, Count(req)) ==
              if |db.pool| > cfg.maxOffset then (db, Answered(req, Conflict))
              else RunAlone(cfg, InsertIp(db, cfg.base + |db.pool|), First(req, cfg.base + |db.pool|))
  {
    AloneStep(cfg, db, Count(req));
    if |db.pool| > cfg.maxOffset {
      assert RegisterStep(cfg, db, Count(req)) == (db, Answered(req, Conflict));
    } else {
      assert RegisterStep(cfg, db, Count(req)) == (db, Take(req, cfg.base + |db.pool|));
      FromTake(cfg, db, req, cfg.base + |db.pool|);
    }
  }

  lemma FromTake(cfg: Config, db: Db, req: Request, ip: Ip)
    requires cfg.Valid()
    ensures RunAlone(cfg, db, Take(req, ip)) == RunAlone(cfg, InsertIp(db, ip), First(req, ip))
  {
    AloneStep(cfg, db, Take(req, ip));
  }

  /** The last two statements. */
  lemma FromFirst(cfg: Config, db: Db, req: Request, ip: Ip)
    requires cfg.Valid()
    ensures var status := if |db.devices| == 0 then Approved else Pending;
            var d := NewDevice(req, ip, status);
            RunAlone(cfg, db, First(req, ip)) ==
              (InsertDevice(db, req.newId, d),
               Answered(req, if CanInsert(db, req.newId, d) then Registered(req.newId, ip, status) else InternalError))
  {
    AloneStep(cfg, db, First(req, ip));
    AloneStep(cfg, db, Save(req, ip, if |db.devices| == 0 then Approved else Pending));
  }

  /** A failure that leaves the pool as it was repeats for every later attempt to register any new key. */
  lemma FailureRepeats(cfg: Config, db: Db, req: Request, again: Request)
    requires cfg.Valid() && Consistent(cfg, db) && IsNew(db, req) && IsNew(db, again)
    requires !Register(cfg, db, req).1.Registered? && Register(cfg, db, req).0.pool == db.pool
    ensures var (after, response) := Register(cfg, db, req);
            after == db && Register(cfg, after, again) == (after, response)
  {
    NewKeyOutcome(cfg, db, req);
    NewKeyOutcome(cfg, db, again);
    RegisterNew(cfg, db, again);
    RegisterNew(cfg, db, req);
  }

  // ── Trying again ──

  /** An attempt at a new key that fails, but uses up an address: base + |pool| is not in the pool, yet held. */
  ghost predicate Wastes(cfg: Config, db: Db)
    requires cfg.Valid()
  {
    && |db.pool| <= cfg.maxOffset && cfg.base + |db.pool| !in db.pool
    && exists id <- db.devices :: db.devices[id].ipv4 == Text(cfg.base + |db.pool|)
  }

  function NextIpTaken(cfg: Config, db: Db): Db
    requires cfg.Valid() && |db.pool| <= cfg.maxOffset
  {
    db.(pool := db.pool[cfg.base + |db.pool| := true])
  }

  /** The k-th address from base + |pool| on is in the network and not in the pool, yet held by a device. */
  ghost predicate HeldOutsidePool(cfg: Config, db: Db, k: nat)
    requires cfg.Valid()
  {
    && |db.pool| + k <= cfg.maxOffset && cfg.base + |db.pool| + k !in db.pool
    && exists id <- db.devices :: db.devices[id].ipv4 == Text(cfg.base + |db.pool| + k)
  }

  /** From k on, the first address that is past the network, in the pool, or held by no device. */
  ghost function FirstNotHeld(cfg: Config, db: Db, k: nat): (n: nat)
    requires cfg.Valid()
    ensures k <= n && !HeldOutsidePool(cfg, db, n)
    ensures forall j: nat | k <= j < n :: HeldOutsidePool(cfg, db, j)
    decreases cfg.maxOffset + 1 - k
  {
    if HeldOutsidePool(cfg, db, k) then FirstNotHeld(cfg, db, k + 1) else k
  }

  /** How many attempts at new keys are wasted before one settles: the least k for which base + |pool| + k is past the
      network, in the pool, or held by no device. */
  ghost function WastedAttempts(cfg: Config, db: Db): (n: nat)
    requires cfg.Valid()
    ensures !HeldOutsidePool(cfg, db, n) && forall j: nat | j < n :: HeldOutsidePool(cfg, db, j)
    ensures |db.pool| <= cfg.maxOffset + 1 ==> n <= cfg.maxOffset + 1 - |db.pool|
  {
    var n := FirstNotHeld(cfg, db, 0);
    assert n > 0 ==> HeldOutsidePool(cfg, db, n - 1);
    n
  }

  /** An attempt that is wasted leaves one less to waste. */
  lemma OneWastedLess(cfg: Config, db: Db)
    requires cfg.Valid() && Wastes(cfg, db)
    ensures WastedAttempts(cfg, db) == WastedAttempts(cfg, NextIpTaken(cfg, db)) + 1
  {
    var next := NextIpTaken(cfg, db);
    OneMoreKey(db.pool, cfg.base + |db.pool|);
    forall k: nat
      ensures HeldOutsidePool(cfg, next, k) <==> HeldOutsidePool(cfg, db, k + 1)
    {
    }
    var n, m := WastedAttempts(cfg, db), WastedAttempts(cfg, next);
    assert HeldOutsidePool(cfg, db, 0);
    assert n <= m + 1 by {
      assert !HeldOutsidePool(cfg, db, m + 1);
    }
    assert m <= n - 1 by {
      assert !HeldOutsidePool(cfg, next, n - 1);
    }
  }

  /** The tables after registering each request, one after the other. */
  ghost function AfterTries(cfg: Config, db: Db, reqs: seq<Request>): Db
    requires cfg.Valid()
    decreases |reqs|
  {
    if reqs == [] then db else AfterTries(cfg, Register(cfg, db, reqs[0]).0, reqs[1..])
  }

  /** The request succeeds if there is room; else it changes nothing. */
  ghost predicate Settled(cfg: Config, db: Db, req: Request)
    requires cfg.Valid()
  {
    if HasRoom(cfg, db) then Register(cfg, db, req).1.Registered?
    else Register(cfg, db, req) == (db, if |db.pool| > cfg.maxOffset then Conflict else InternalError)
  }

  lemma WastedAttempt(cfg: Config, db: Db, req: Request)
    requires cfg.Valid() && Consistent(cfg, db) && IsNew(db, req) && Wastes(cfg, db)
    ensures Register(cfg, db, req) == (NextIpTaken(cfg, db), InternalError)
    ensures Consistent(cfg, NextIpTaken(cfg, db)) && |NextIpTaken(cfg, db).pool| == |db.pool| + 1
  {
    var status := if |db.devices| == 0 then Approved else Pending;
    WastedTables(cfg, db, req.newId, NewDevice(req, cfg.base + |db.pool|, status));
    OneMoreRow(cfg, db);
    InsertIpKeeps(cfg, db, cfg.base + |db.pool|);
    NoneFree(cfg, db);
    RegisterNew(cfg, db, req);
  }

  lemma OneMoreRow(cfg: Config, db: Db)
    requires cfg.Valid() && |db.pool| <= cfg.maxOffset && cfg.base + |db.pool| !in db.pool
    ensures InsertIp(db, cfg.base + |db.pool|) == NextIpTaken(cfg, db)
    ensures |NextIpTaken(cfg, db).pool| == |db.pool| + 1
  {
    OneMoreKey(db.pool, cfg.base + |db.pool|);
  }

  lemma WastedTables(cfg: Config, db: Db, id: DeviceId, d: Device)
    requires cfg.Valid() && Wastes(cfg, db) && d.ipv4 == Text(cfg.base + |db.pool|)
    ensures !CanInsert(NextIpTaken(cfg, db), id, d) && InsertDevice(NextIpTaken(cfg, db), id, d) == NextIpTaken(cfg, db)
  {
  }

  /** The tables that n wasted attempts leave behind. */
  ghost predicate Wasted(cfg: Config, db: Db, after: Db, n: nat) {
    && Consistent(cfg, after) && after.devices == db.devices && |after.pool| == |db.pool| + n
    && forall ip: Ip :: ip in after.pool <==>
         ip in db.pool || cfg.base + |db.pool| <= ip < cfg.base + |db.pool| + n
  }

  lemma WastedOnce(cfg: Config, db: Db, reqs: seq<Request>)
    requires cfg.Valid() && Consistent(cfg, db) && reqs != [] && WastedAttempts(cfg, db) > 0
    requires forall r <- reqs :: IsNew(db, r)
    ensures |db.pool| <= cfg.maxOffset && Register(cfg, db, reqs[0]) == (NextIpTaken(cfg, db), InternalError)
    ensures var next := NextIpTaken(cfg, db);
            && Consistent(cfg, next) && Wasted(cfg, db, next, 1)
            && WastedAttempts(cfg, db) == WastedAttempts(cfg, next) + 1
            && forall r <- reqs[1..] :: IsNew(next, r)
  {
    assert HeldOutsidePool(cfg, db, 0) && reqs[0] in reqs;
    WastedAttempt(cfg, db, reqs[0]);
    OneWastedLess(cfg, db);
    forall r | r in reqs[1..]
      ensures IsNew(NextIpTaken(cfg, db), r)
    {
      SameDevices(db, NextIpTaken(cfg, db), r);
    }
  }

  lemma WastedMore(cfg: Config, db: Db, next: Db, after: Db, n: nat)
    requires Wasted(cfg, db, next, 1) && Wasted(cfg, next, after, n)
    ensures Wasted(cfg, db, after, n + 1)
  {
  }

  lemma {:induction false} WastedRun(cfg: Config, db: Db, reqs: seq<Request>)
    requires cfg.Valid() && Consistent(cfg, db) && |reqs| == WastedAttempts(cfg, db)
    requires forall r <- reqs :: IsNew(db, r)
    ensures Wasted(cfg, db, AfterTries(cfg, db, reqs), |reqs|) && !Wastes(cfg, AfterTries(cfg, db, reqs))
    decreases |reqs|
  {
    if reqs == [] {
      assert Wastes(cfg, db) <==> HeldOutsidePool(cfg, db, 0);
    } else {
      WastedOnce(cfg, db, reqs);
      WastedRun(cfg, NextIpTaken(cfg, db), reqs[1..]);
      WastedMore(cfg, db, NextIpTaken(cfg, db), AfterTries(cfg, db, reqs), |reqs| - 1);
    }
  }

  lemma {:induction false} EachIsWasted(cfg: Config, db: Db, reqs: seq<Request>, i: nat)
    requires cfg.Valid() && Consistent(cfg, db) && i < |reqs| <= WastedAttempts(cfg, db)
    requires forall r <- reqs :: IsNew(db, r)
    ensures Register(cfg, AfterTries(cfg, db, reqs[..i]), reqs[i]).1 == InternalError
    decreases i
  {
    WastedOnce(cfg, db, reqs);
    if i == 0 {
    } else {
      EachIsWasted(cfg, NextIpTaken(cfg, db), reqs[1..], i - 1);
      assert reqs[..i][1..] == reqs[1..][..i - 1] && reqs[..i][0] == reqs[0];
    }
  }

  /** Repeated attempts: each of the first n = `WastedAttempts` requests for new keys is an internal error and uses up
      the next address, which no later attempt gives back; the devices stay as they are. The next attempt settles it. If
      there is room by then, it succeeds; else it changes nothing, and every later request for a new key is answered
      the same way: CONFLICT when the pool is full, else an internal error for ever. */
  lemma AttemptsSettle(cfg: Config, db: Db, reqs: seq<Request>)
    requires cfg.Valid() && Consistent(cfg, db) && |reqs| == WastedAttempts(cfg, db)
    requires forall r <- reqs :: IsNew(db, r)
    ensures forall i: nat | i < |reqs| :: Register(cfg, AfterTries(cfg, db, reqs[..i]), reqs[i]).1 == InternalError
    ensures var after := AfterTries(cfg, db, reqs);
            Wasted(cfg, db, after, |reqs|) && forall r: Request | IsNew(db, r) :: Settled(cfg, after, r)
    ensures |reqs| <= cfg.maxOffset + 1 - |db.pool|
  {
    forall i: nat | i < |reqs|
      ensures Register(cfg, AfterTries(cfg, db, reqs[..i]), reqs[i]).1 == InternalError
    {
      EachIsWasted(cfg, db, reqs, i);
    }
    WastedRun(cfg, db, reqs);
    var after := AfterTries(cfg, db, reqs);
    forall r: Request | IsNew(db, r)
      ensures Settled(cfg, after, r)
    {
      SameDevices(db, after, r);
      SettledAttempt(cfg, after, r);
    }
    ConsistentMeans(cfg, db);
  }

  lemma SameDevices(db: Db, db': Db, req: Request)
    requires db.devices == db'.devices && IsNew(db, req)
    ensures IsNew(db', req)
  {
    if FindByPublicKey(db', req.publicKey).Some? {
      assert FindByPublicKey(db', req.publicKey).value in db.devices;
    }
  }

  lemma SettledAttempt(cfg: Config, db: Db, req: Request)
    requires cfg.Valid() && Consistent(cfg, db) && IsNew(db, req) && !Wastes(cfg, db)
    ensures Settled(cfg, db, req)
  {
    NewKeyOutcome(cfg, db, req);
    RegisterNew(cfg, db, req);
  }

  /** The same in the states that runs reach. */
  lemma ReachableNewKeyOutcome(cfg: Config, acts: seq<Action>, req: Request)
    requires cfg.Valid() && IsNew(Exec(cfg, acts).db, req)
    ensures Register(cfg, Exec(cfg, acts).db, req).1.Registered? <==> HasRoom(cfg, Exec(cfg, acts).db)
  {
    AlwaysFine(cfg, acts);
    NewKeyOutcome(cfg, Exec(cfg, acts).db, req);
  }

  // ── One after the other, from the empty tables ──

  ghost function AfterAll(cfg: Config, reqs: seq<Request>): Db
    requires cfg.Valid()
  {
    if reqs == [] then EMPTY else Register(cfg, AfterAll(cfg, reqs[..|reqs| - 1]), reqs[|reqs| - 1]).0
  }

  /** Different keys, different drawn ids. */
  ghost predicate AllDifferent(reqs: seq<Request>) {
    forall i, j | 0 <= i < j < |reqs| :: reqs[i].publicKey != reqs[j].publicKey && reqs[i].newId != reqs[j].newId
  }

  /** The pool is exactly the n addresses from the base on. */
  ghost predicate PoolIs(cfg: Config, pool: map<Ip, bool>, n: nat) {
    |pool| == n && forall ip: Ip :: ip in pool <==> cfg.base <= ip < cfg.base + n
  }

  /** The devices are exactly the first n requesters. */
  ghost predicate DevicesAre(cfg: Config, devices: map<DeviceId, Device>, reqs: seq<Request>, n: nat)
    requires n <= |reqs|
  {
    && (n == 0 <==> devices == map[])
    && (forall id <- devices ::
          exists i: nat | i < n :: id == reqs[i].newId && IsDeviceOf(cfg, devices[id], reqs[i], i))
  }

  predicate IsDeviceOf(cfg: Config, d: Device, req: Request, i: nat) {
    d.publicKey == req.publicKey && d.ipv4.Text? && d.ipv4.ip == cfg.base + i
  }

  function Capped(cfg: Config, n: nat): nat {
    if n <= cfg.maxOffset + 1 then n else cfg.maxOffset + 1
  }

  /** The tables once the first k requests have been handled. */
  ghost predicate Handled(cfg: Config, db: Db, reqs: seq<Request>, k: nat)
    requires k <= |reqs|
  {
    && Consistent(cfg, db) && PoolIs(cfg, db.pool, Capped(cfg, k))
    && DevicesAre(cfg, db.devices, reqs, Capped(cfg, k))
  }

  lemma NextIsNew(cfg: Config, db: Db, reqs: seq<Request>, k: nat)
    requires cfg.Valid() && AllDifferent(reqs) && k < |reqs| && Handled(cfg, db, reqs, k)
    ensures IsNew(db, reqs[k])
    ensures k <= cfg.maxOffset ==> HasRoom(cfg, db)
  {
    forall id <- db.devices
      ensures id != reqs[k].newId && db.devices[id].publicKey != reqs[k].publicKey
      ensures k <= cfg.maxOffset ==> db.devices[id].ipv4 != Text(cfg.base + k)
    {
      var i: nat :| i < Capped(cfg, k) && id == reqs[i].newId && IsDeviceOf(cfg, db.devices[id], reqs[i], i);
    }
  }

  lemma NextSucceeds(cfg: Config, db: Db, reqs: seq<Request>, k: nat)
    requires cfg.Valid() && k < |reqs| && k <= cfg.maxOffset && Handled(cfg, db, reqs, k)
    requires reqs[k].newId !in db.devices && HasRoom(cfg, db)
    requires forall id <- db.devices :: db.devices[id].publicKey != reqs[k].publicKey
    ensures var d := NewDevice(reqs[k], cfg.base + k, if k == 0 then Approved else Pending);
            Handled(cfg, Db(db.devices[reqs[k].newId := d], db.pool[cfg.base + k := true]), reqs, k + 1)
  {
    var d := NewDevice(reqs[k], cfg.base + k, if k == 0 then Approved else Pending);
    NextConsistent(cfg, db, reqs[k].newId, d, cfg.base + k);
    OneMoreIp(cfg, db.pool, k);
    OneMoreDevice(cfg, db.devices, reqs, k, d);
  }

  lemma NextConsistent(cfg: Config, db: Db, id: DeviceId, d: Device, ip: Ip)
    requires Consistent(cfg, db) && cfg.Holds(ip) && d.ipv4 == Text(ip) && d.status != Revoked
    requires CanInsert(db, id, d) && ip !in db.pool
    ensures Consistent(cfg, Db(db.devices[id := d], db.pool[ip := true]))
  {
    InsertIpKeeps(cfg, db, ip);
    InsertDeviceKeeps(cfg, InsertIp(db, ip), id, d);
  }

  lemma OneMoreIp(cfg: Config, pool: map<Ip, bool>, n: nat)
    requires PoolIs(cfg, pool, n) && cfg.base + n < 0x1_0000_0000
    ensures PoolIs(cfg, pool[cfg.base + n := true], n + 1)
  {
    OneMoreKey(pool, cfg.base + n);
  }

  lemma OneMoreKey(pool: map<Ip, bool>, ip: Ip)
    requires ip !in pool
    ensures |pool[ip := true]| == |pool| + 1
  {
    assert pool[ip := true].Keys == pool.Keys + {ip};
    assert |pool.Keys| == |pool| && |pool[ip := true].Keys| == |pool[ip := true]|;
  }

  lemma OneMoreDevice(cfg: Config, before: map<DeviceId, Device>, reqs: seq<Request>, k: nat, d: Device)
    requires k < |reqs| && DevicesAre(cfg, before, reqs, k) && IsDeviceOf(cfg, d, reqs[k], k)
    ensures DevicesAre(cfg, before[reqs[k].newId := d], reqs, k + 1)
  {
    var devices := before[reqs[k].newId := d];
    assert reqs[k].newId in devices;
    forall id <- devices
      ensures exists i: nat | i < k + 1 :: id == reqs[i].newId && IsDeviceOf(cfg, devices[id], reqs[i], i)
    {
      if id == reqs[k].newId {
        assert IsDeviceOf(cfg, devices[id], reqs[k], k);
      } else {
        var i: nat :| i < k && id == reqs[i].newId && IsDeviceOf(cfg, before[id], reqs[i], i);
        assert IsDeviceOf(cfg, devices[id], reqs[i], i);
      }
    }
  }

  lemma SequentialStep(cfg: Config, db: Db, reqs: seq<Request>, k: nat)
    requires cfg.Valid() && AllDifferent(reqs) && k < |reqs| && Handled(cfg, db, reqs, k)
    ensures var (after, response) := Register(cfg, db, reqs[k]);
            && Handled(cfg, after, reqs, k + 1)
            && response == if k <= cfg.maxOffset
                           then Registered(reqs[k].newId, cfg.base + k, if k == 0 then Approved else Pending)
                           else Conflict
  {
    NextIsNew(cfg, db, reqs, k);
    if k <= cfg.maxOffset {
      NextSucceeds(cfg, db, reqs, k);
      NextTables(cfg, db, reqs[k], k);
    } else {
      RegisterNew(cfg, db, reqs[k]);
    }
  }

  /** A success, when the pool has k addresses. */
  lemma NextTables(cfg: Config, db: Db, req: Request, k: nat)
    requires cfg.Valid() && Consistent(cfg, db) && IsNew(db, req) && HasRoom(cfg, db)
    requires |db.pool| == k && (k == 0 <==> db.devices == map[])
    ensures var status := if k == 0 then Approved else Pending;
            Register(cfg, db, req) ==
              (Db(db.devices[req.newId := NewDevice(req, cfg.base + k, status)], db.pool[cfg.base + k := true]),
               Registered(req.newId, cfg.base + k, status))
  {
    NewKeyOutcome(cfg, db, req);
  }

  lemma {:induction false} SequentialState(cfg: Config, reqs: seq<Request>, k: nat)
    requires cfg.Valid() && AllDifferent(reqs) && k <= |reqs|
    ensures Handled(cfg, AfterAll(cfg, reqs[..k]), reqs, k)
  {
    if k == 0 {
    } else {
      assert reqs[..k][..k - 1] == reqs[..k - 1];
      SequentialState(cfg, reqs, k - 1);
      SequentialStep(cfg, AfterAll(cfg, reqs[..k - 1]), reqs, k - 1);
    }
  }

  /** Exactly 2^(32 - prefix) new keys succeed, in address order, the first of them approved; every later one is
      answered CONFLICT. */
  lemma SequentialCapacity(address: Ip, prefix: Byte, reqs: seq<Request>, i: nat)
    requires 1 <= prefix <= 32 && ParsedCidr(address, prefix).value.Valid()
    requires AllDifferent(reqs) && i < |reqs|
    ensures var cfg := ParsedCidr(address, prefix).value;
            Register(cfg, AfterAll(cfg, reqs[..i]), reqs[i]).1 ==
              if i < Pow2(32 - prefix) then Registered(reqs[i].newId, address + i, if i == 0 then Approved else Pending)
              else Conflict
  {
    var cfg := ParsedCidr(address, prefix).value;
    SequentialState(cfg, reqs, i);
    SequentialStep(cfg, AfterAll(cfg, reqs[..i]), reqs, i);
  }

  // ── Interleaved, with nothing released ──

  /** Only registrations, approvals, heartbeats and statistics are ever started. */
  predicate NothingReleased(acts: seq<Action>) {
    forall act <- acts :: act.Spawn? ==>
      act.start.Look? || act.start.Approving? || act.start.Beating? || act.start.Sizing?
  }

  /** A handler in such a run: a count it took is not ahead of the pool, an address it took is in the pool, and a
      success it reported is in the tables. */
  predicate ProcGrows(cfg: Config, db: Db, p: Proc) {
    match p
    case Take(_, ip) => ip <= cfg.base + |db.pool|
    case First(_, ip) => ip in db.pool
    case Save(_, ip, _) => ip in db.pool
    case Answered(req, Registered(id, ip, _)) =>
      id in db.devices && db.devices[id].publicKey == req.publicKey && db.devices[id].ipv4 == Text(ip)
    case _ => !p.RevokeFreeing? && !p.Revoking? && !p.DeleteFreeing? && !p.Deleting? && !p.PurgeFreeing? && !p.Purging?
  }

  ghost predicate Grows(cfg: Config, s: Sys) {
    && SysFine(cfg, s) && PoolIs(cfg, s.db.pool, |s.db.pool|)
    && (forall id <- s.db.devices :: s.db.devices[id].ipv4.Text?)
    && (forall h <- s.procs :: ProcGrows(cfg, s.db, s.procs[h]))
  }

  /** The tables only grow: no pool row goes away and no device changes its key or address. */
  predicate TablesGrow(db: Db, db': Db) {
    && db.pool.Keys <= db'.pool.Keys && |db.pool| <= |db'.pool|
    && forall id <- db.devices :: id in db'.devices && db'.devices[id].publicKey == db.devices[id].publicKey
                                  && db'.devices[id].ipv4 == db.devices[id].ipv4
  }

  lemma InsertIpGrows(cfg: Config, db: Db, ip: Ip)
    requires PoolIs(cfg, db.pool, |db.pool|) && cfg.base <= ip <= cfg.base + |db.pool|
    ensures var db' := InsertIp(db, ip);
            TablesGrow(db, db') && PoolIs(cfg, db'.pool, |db'.pool|) && ip in db'.pool
  {
    if ip !in db.pool {
      OneMoreIp(cfg, db.pool, |db.pool|);
    }
  }

  /** What one statement keeps in such a run. */
  ghost predicate StepGrows(cfg: Config, db: Db, db': Db, p': Proc) {
    && TablesGrow(db, db') && PoolIs(cfg, db'.pool, |db'.pool|) && ProcGrows(cfg, db', p')
    && forall id <- db'.devices :: db'.devices[id].ipv4.Text?
  }

  lemma RegisterGrows(cfg: Config, db: Db, p: Proc)
    requires cfg.Valid() && Registering(p) && ProcFine(cfg, p)
    requires PoolIs(cfg, db.pool, |db.pool|) && ProcGrows(cfg, db, p)
    requires forall id <- db.devices :: db.devices[id].ipv4.Text?
    ensures StepGrows(cfg, db, RegisterStep(cfg, db, p).0, RegisterStep(cfg, db, p).1)
  {
    match p
    case Look(_) =>
    case SelectFree(_) =>
    case Count(_) =>
    case Take(req, ip) => TakeGrows(cfg, db, req, ip);
    case First(_, _) =>
    case Save(req, ip, status) => SaveGrows(cfg, db, req, ip, status);
    case Answered(_, _) =>
  }

  lemma TakeGrows(cfg: Config, db: Db, req: Request, ip: Ip)
    requires PoolIs(cfg, db.pool, |db.pool|) && cfg.base <= ip <= cfg.base + |db.pool|
    requires forall id <- db.devices :: db.devices[id].ipv4.Text?
    ensures StepGrows(cfg, db, InsertIp(db, ip), First(req, ip))
  {
    InsertIpGrows(cfg, db, ip);
  }

  lemma SaveGrows(cfg: Config, db: Db, req: Request, ip: Ip, status: Status)
    requires PoolIs(cfg, db.pool, |db.pool|) && forall id <- db.devices :: db.devices[id].ipv4.Text?
    ensures var d := NewDevice(req, ip, status);
            StepGrows(cfg, db, InsertDevice(db, req.newId, d), Answered(
              req, if CanInsert(db, req.newId, d) then Registered(req.newId, ip, status) else InternalError))
  {
    InsertDeviceGrows(cfg, db, req.newId, NewDevice(req, ip, status));
  }

  lemma AdminGrows(cfg: Config, db: Db, p: Proc)
    requires !Registering(p) && PoolIs(cfg, db.pool, |db.pool|) && ProcGrows(cfg, db, p)
    requires forall id <- db.devices :: db.devices[id].ipv4.Text?
    ensures StepGrows(cfg, db, AdminStep(db, p).0, AdminStep(db, p).1)
  {
    match p
    case Approving(id) => StatusOnly(cfg, db, Approve(db, id));
    case Beating(id, now) => StatusOnly(cfg, db, Heartbeat(db, id, now));
    case Finished =>
    case Sizing =>
    case Tallying(_) =>
    case Told(_, _) =>
  }

  lemma GrowStep(cfg: Config, db: Db, p: Proc)
    requires cfg.Valid() && ProcFine(cfg, p)
    requires PoolIs(cfg, db.pool, |db.pool|) && ProcGrows(cfg, db, p)
    requires forall id <- db.devices :: db.devices[id].ipv4.Text?
    ensures StepGrows(cfg, db, Step(cfg, db, p).0, Step(cfg, db, p).1)
  {
    if Registering(p) {
      RegisterGrows(cfg, db, p);
    } else {
      AdminGrows(cfg, db, p);
    }
  }

  lemma InsertDeviceGrows(cfg: Config, db: Db, id: DeviceId, d: Device)
    requires d.ipv4.Text? && forall x <- db.devices :: db.devices[x].ipv4.Text?
    ensures var db' := InsertDevice(db, id, d);
            && TablesGrow(db, db') && db'.pool == db.pool
            && (forall x <- db'.devices :: db'.devices[x].ipv4.Text?)
            && (CanInsert(db, id, d) ==> id in db'.devices && db'.devices[id] == d)
  {
  }

  /** A statement that changes neither the pool nor any key or address. */
  lemma StatusOnly(cfg: Config, db: Db, db': Db)
    requires db'.pool == db.pool && db'.devices.Keys == db.devices.Keys
    requires forall id <- db.devices :: db'.devices[id].publicKey == db.devices[id].publicKey
                                        && db'.devices[id].ipv4 == db.devices[id].ipv4
    requires forall id <- db.devices :: db.devices[id].ipv4.Text?
    ensures TablesGrow(db, db') && forall id <- db'.devices :: db'.devices[id].ipv4.Text?
  {
  }

  lemma {:induction false} AlwaysGrows(cfg: Config, acts: seq<Action>)
    requires cfg.Valid() && NothingReleased(acts)
    ensures Grows(cfg, Exec(cfg, acts))
  {
    AlwaysFine(cfg, acts);
    if acts == [] {
    } else {
      var before, last := acts[..|acts| - 1], acts[|acts| - 1];
      AlwaysGrows(cfg, before);
      var s := Exec(cfg, before);
      if last.Advance? && last.handler in s.procs {
        GrowStep(cfg, s.db, s.procs[last.handler]);
        var db' := Step(cfg, s.db, s.procs[last.handler]).0;
        forall h <- s.procs
          ensures ProcGrows(cfg, db', s.procs[h])
        {
          GrownKeepsProc(cfg, s.db, db', s.procs[h]);
        }
      } else {
        assert last in acts;
      }
    }
  }

  lemma GrownKeepsProc(cfg: Config, db: Db, db': Db, p: Proc)
    requires TablesGrow(db, db') && ProcGrows(cfg, db, p)
    ensures ProcGrows(cfg, db', p)
  {
  }

  /** In every interleaving of registrations, approvals and heartbeats the pool is exactly [base, base + n), no stale
      count is ahead of it, and no two successful answers for different keys carry the same address. */
  lemma RacingRegistrations(cfg: Config, acts: seq<Action>)
    requires cfg.Valid() && NothingReleased(acts)
    ensures var s := Exec(cfg, acts);
            && PoolIs(cfg, s.db.pool, |s.db.pool|)
            && (forall h <- s.procs :: s.procs[h].Take? ==> s.procs[h].ip <= cfg.base + |s.db.pool|)
            && (forall g, h | g in s.procs && h in s.procs && s.procs[g].Answered? && s.procs[h].Answered?
                              && s.procs[g].response.Registered? && s.procs[h].response.Registered? ::
                  s.procs[g].req.publicKey == s.procs[h].req.publicKey
                  <==> s.procs[g].response.ip == s.procs[h].response.ip)
  {
    AlwaysGrows(cfg, acts);
    var s := Exec(cfg, acts);
    forall g, h | g in s.procs && h in s.procs && s.procs[g].Answered? && s.procs[h].Answered?
                  && s.procs[g].response.Registered? && s.procs[h].response.Registered?
      ensures s.procs[g].req.publicKey == s.procs[h].req.publicKey
              <==> s.procs[g].response.ip == s.procs[h].response.ip
    {
      var x, y := s.procs[g].response.id, s.procs[h].response.id;
      assert ProcGrows(cfg, s.db, s.procs[g]) && ProcGrows(cfg, s.db, s.procs[h]);
      assert x != y ==> s.db.devices[x].ipv4 != s.db.devices[y].ipv4;
    }
  }
}
