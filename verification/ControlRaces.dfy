/** What handlers of the control service see of each other between their statements: services/control/src/main.rs. */
module ControlRaces {
  import opened Wrappers
  import opened ControlDb
  import opened ControlRuns
  import opened ControlRegistration

  // ── One action after another ──

  lemma ExecMore(cfg: Config, acts: seq<Action>, act: Action)
    requires cfg.Valid()
    ensures Exec(cfg, acts + [act]) == Apply(cfg, Exec(cfg, acts), act)
  {
    assert (acts + [act])[..|acts|] == acts;
  }

  lemma Spawned(cfg: Config, acts: seq<Action>, h: nat, p: Proc)
    requires cfg.Valid() && h !in Exec(cfg, acts).procs && IsStart(p)
    ensures var s := Exec(cfg, acts); Exec(cfg, acts + [Spawn(h, p)]) == Sys(s.db, s.procs[h := p])
  {
    ExecMore(cfg, acts, Spawn(h, p));
  }

  lemma Advanced(cfg: Config, acts: seq<Action>, h: nat, db': Db, p': Proc)
    requires cfg.Valid() && h in Exec(cfg, acts).procs
    requires Step(cfg, Exec(cfg, acts).db, Exec(cfg, acts).procs[h]) == (db', p')
    ensures Exec(cfg, acts + [Advance(h)]) == Sys(db', Exec(cfg, acts).procs[h := p'])
  {
    ExecMore(cfg, acts, Advance(h));
  }

  /** A registration of an unknown key, when no row is free, up to its insertion into the pool. */
  function UpToTake(acts: seq<Action>, h: nat): seq<Action> {
    acts + [Advance(h)] + [Advance(h)] + [Advance(h)]
  }

  /** And up to its insertion into the devices. */
  function UpToSave(acts: seq<Action>, h: nat): seq<Action> {
    UpToTake(acts, h) + [Advance(h)] + [Advance(h)]
  }

  lemma ReachesTake(cfg: Config, acts: seq<Action>, h: nat, s: Sys, req: Request)
    requires cfg.Valid() && Exec(cfg, acts) == s && h in s.procs && s.procs[h] == Look(req)
    requires FindByPublicKey(s.db, req.publicKey) == None && FindFree(s.db) == None && |s.db.pool| <= cfg.maxOffset
    ensures Exec(cfg, UpToTake(acts, h)) == Sys(s.db, s.procs[h := Take(req, cfg.base + |s.db.pool|)])
  {
    Advanced(cfg, acts, h, s.db, SelectFree(req));
    Advanced(cfg, acts + [Advance(h)], h, s.db, Count(req));
    Advanced(cfg, acts + [Advance(h)] + [Advance(h)], h, s.db, Take(req, cfg.base + |s.db.pool|));
  }

  lemma ReachesSave(cfg: Config, acts: seq<Action>, h: nat, s: Sys, req: Request)
    requires cfg.Valid() && Exec(cfg, acts) == s && h in s.procs && s.procs[h] == Look(req)
    requires Consistent(cfg, s.db) && s.db.devices == map[]
    requires |s.db.pool| <= cfg.maxOffset && cfg.base + |s.db.pool| !in s.db.pool
    ensures Exec(cfg, UpToSave(acts, h))
         == Sys(NextIpTaken(cfg, s.db), s.procs[h := Save(req, cfg.base + |s.db.pool|, Approved)])
  {
    NothingFound(cfg, s.db, req);
    ReachesTake(cfg, acts, h, s, req);
    OneMoreRow(cfg, s.db);
    var ip := cfg.base + |s.db.pool|;
    TakesAndCounts(cfg, UpToTake(acts, h), h, s, req, ip);
  }

  lemma NothingFound(cfg: Config, db: Db, req: Request)
    requires Consistent(cfg, db) && db.devices == map[]
    ensures FindByPublicKey(db, req.publicKey) == None && FindFree(db) == None
  {
    NoneFree(cfg, db);
  }

  lemma TakesAndCounts(cfg: Config, acts: seq<Action>, h: nat, s: Sys, req: Request, ip: Ip)
    requires cfg.Valid() && Exec(cfg, acts) == Sys(s.db, s.procs[h := Take(req, ip)]) && s.db.devices == map[]
    ensures Exec(cfg, acts + [Advance(h)] + [Advance(h)])
         == Sys(InsertIp(s.db, ip), s.procs[h := Save(req, ip, Approved)])
  {
    Advanced(cfg, acts, h, InsertIp(s.db, ip), First(req, ip));
    Advanced(cfg, acts + [Advance(h)], h, InsertIp(s.db, ip), Save(req, ip, Approved));
  }

  /** The last statement of a registration, when the row can be inserted. */
  lemma Saved(cfg: Config, acts: seq<Action>, h: nat, s: Sys, req: Request, ip: Ip)
    requires cfg.Valid() && Exec(cfg, acts) == s && h in s.procs && s.procs[h] == Save(req, ip, Approved)
    requires CanInsert(s.db, req.newId, NewDevice(req, ip, Approved))
    ensures Exec(cfg, acts + [Advance(h)]) ==
              Sys(s.db.(devices := s.db.devices[req.newId := NewDevice(req, ip, Approved)]),
                  s.procs[h := Answered(req, Registered(req.newId, ip, Approved))])
  {
    Advanced(cfg, acts, h, s.db.(devices := s.db.devices[req.newId := NewDevice(req, ip, Approved)]),
             Answered(req, Registered(req.newId, ip, Approved)));
  }

  // ── Who is approved as the first device ──

  /** Action k is the statement by which handler h counts the devices. */
  ghost predicate CountsDevices(cfg: Config, acts: seq<Action>, k: nat, h: nat)
    requires cfg.Valid() && k < |acts|
  {
    var s := Exec(cfg, acts[..k]);
    acts[k] == Advance(h) && h in s.procs && s.procs[h].First?
  }

  /** A handler that is about to insert a row will insert it as Approved if and only if there was no device when it
      counted them; whether there is one by now makes no difference. */
  lemma {:induction false} ApprovedByOldCount(cfg: Config, acts: seq<Action>, h: nat)
    requires cfg.Valid() && h in Exec(cfg, acts).procs && Exec(cfg, acts).procs[h].Save?
    ensures Exec(cfg, acts).procs[h].status != Revoked
    ensures exists k: nat | k < |acts| :: CountsDevices(cfg, acts, k, h)
              && (Exec(cfg, acts).procs[h].status == Approved <==> Exec(cfg, acts[..k]).db.devices == map[])
  {
    var before, last := acts[..|acts| - 1], |acts| - 1;
    var s, status := Exec(cfg, before), Exec(cfg, acts).procs[h].status;
    if acts[last] == Advance(h) && h in s.procs {
      SavesAfterCount(cfg, s.db, s.procs[h]);
      assert CountsDevices(cfg, acts, last, h);
    } else {
      assert h in s.procs && s.procs[h] == Exec(cfg, acts).procs[h];
      ApprovedByOldCount(cfg, before, h);
      var k: nat :| k < |before| && CountsDevices(cfg, before, k, h)
                    && (status == Approved <==> Exec(cfg, before[..k]).db.devices == map[]);
      assert before[..k] == acts[..k];
      assert CountsDevices(cfg, acts, k, h);
    }
  }

  lemma SavesAfterCount(cfg: Config, db: Db, p: Proc)
    requires cfg.Valid() && Step(cfg, db, p).1.Save?
    ensures p.First? && Step(cfg, db, p).1.status == if db.devices == map[] then Approved else Pending
  {
    assert |db.devices| == 0 <==> db.devices == map[];
  }

  /** Two registrations; each counts the devices before either inserts its own. */
  function TwoCounted(a: Request, b: Request): seq<Action> {
    UpToSave(UpToSave(BothLook(a, b), 0), 1)
  }

  function BothLook(a: Request, b: Request): seq<Action> {
    [] + [Spawn(0, Look(a))] + [Spawn(1, Look(b))]
  }

  /** No devices, and the first n addresses in the pool. */
  predicate OnlyPool(cfg: Config, db: Db, n: nat) {
    && db.devices == map[] && |db.pool| == n
    && forall ip: Ip :: (ip in db.pool <==> cfg.base <= ip < cfg.base + n) && (ip in db.pool ==> db.pool[ip])
  }

  lemma NextOnlyPool(cfg: Config, db: Db, n: nat)
    requires cfg.Valid() && n <= cfg.maxOffset && OnlyPool(cfg, db, n)
    ensures Consistent(cfg, db) && cfg.base + |db.pool| !in db.pool && OnlyPool(cfg, NextIpTaken(cfg, db), n + 1)
  {
    OneMoreRow(cfg, db);
  }

  lemma CountsNext(cfg: Config, acts: seq<Action>, h: nat, s: Sys, req: Request, n: nat)
    requires cfg.Valid() && n <= cfg.maxOffset && OnlyPool(cfg, s.db, n)
    requires Exec(cfg, acts) == s && h in s.procs && s.procs[h] == Look(req)
    ensures var s' := Exec(cfg, UpToSave(acts, h));
            OnlyPool(cfg, s'.db, n + 1) && s'.procs == s.procs[h := Save(req, cfg.base + n, Approved)]
  {
    NextOnlyPool(cfg, s.db, n);
    ReachesSave(cfg, acts, h, s, req);
  }

  lemma BothSpawned(cfg: Config, a: Request, b: Request)
    requires cfg.Valid()
    ensures var s := Exec(cfg, BothLook(a, b)); OnlyPool(cfg, s.db, 0) && s.procs == map[0 := Look(a), 1 := Look(b)]
  {
    Spawned(cfg, [], 0, Look(a));
    Spawned(cfg, [] + [Spawn(0, Look(a))], 1, Look(b));
  }

  lemma BothCounted(cfg: Config, a: Request, b: Request)
    requires cfg.Valid() && cfg.maxOffset >= 1
    ensures var s := Exec(cfg, TwoCounted(a, b));
            && OnlyPool(cfg, s.db, 2)
            && s.procs == map[0 := Save(a, cfg.base, Approved), 1 := Save(b, cfg.base + 1, Approved)]
  {
    OneOfTwoCounted(cfg, a, b);
    var acts := UpToSave(BothLook(a, b), 0);
    CountsNext(cfg, acts, 1, Exec(cfg, acts), b, 1);
  }

  lemma OneOfTwoCounted(cfg: Config, a: Request, b: Request)
    requires cfg.Valid()
    ensures var s := Exec(cfg, UpToSave(BothLook(a, b), 0));
            OnlyPool(cfg, s.db, 1) && s.procs == map[0 := Save(a, cfg.base, Approved), 1 := Look(b)]
  {
    var acts := BothLook(a, b);
    BothSpawned(cfg, a, b);
    CountsNext(cfg, acts, 0, Exec(cfg, acts), a, 0);
  }

  /** The first device is not the only one to be approved unasked: two racing registrations from the empty tables both
      are. */
  lemma TwoApprovedUnasked(cfg: Config, a: Request, b: Request)
    requires cfg.Valid() && cfg.maxOffset >= 1 && a.publicKey != b.publicKey && a.newId != b.newId
    ensures var s := Exec(cfg, TwoCounted(a, b) + [Advance(0)] + [Advance(1)]);
            && s.db.devices == map[a.newId := NewDevice(a, cfg.base, Approved),
                                   b.newId := NewDevice(b, cfg.base + 1, Approved)]
            && s.procs == map[0 := Answered(a, Registered(a.newId, cfg.base, Approved)),
                              1 := Answered(b, Registered(b.newId, cfg.base + 1, Approved))]
  {
    OneOfTwoSaved(cfg, a, b);
    var acts := TwoCounted(a, b) + [Advance(0)];
    Saved(cfg, acts, 1, Exec(cfg, acts), b, cfg.base + 1);
  }

  lemma OneOfTwoSaved(cfg: Config, a: Request, b: Request)
    requires cfg.Valid() && cfg.maxOffset >= 1
    ensures var s := Exec(cfg, TwoCounted(a, b) + [Advance(0)]);
            && s.db.devices == map[a.newId := NewDevice(a, cfg.base, Approved)]
            && s.procs == map[0 := Answered(a, Registered(a.newId, cfg.base, Approved)),
                              1 := Save(b, cfg.base + 1, Approved)]
  {
    BothCounted(cfg, a, b);
    Saved(cfg, TwoCounted(a, b), 0, Exec(cfg, TwoCounted(a, b)), a, cfg.base);
  }

  // ── The address statistics ──

  /** Action k is the statement of handler h in which it reads the size of the pool. */
  ghost predicate Sizes(cfg: Config, acts: seq<Action>, k: nat, h: nat)
    requires cfg.Valid() && k < |acts|
  {
    var s := Exec(cfg, acts[..k]);
    acts[k] == Advance(h) && h in s.procs && s.procs[h].Sizing?
  }

  /** Action k is the statement of handler h in which it counts the allocated rows. */
  ghost predicate Tallies(cfg: Config, acts: seq<Action>, k: nat, h: nat)
    requires cfg.Valid() && k < |acts|
  {
    var s := Exec(cfg, acts[..k]);
    acts[k] == Advance(h) && h in s.procs && s.procs[h].Tallying?
  }

  ghost function PoolSizeAt(cfg: Config, acts: seq<Action>, k: nat): nat
    requires cfg.Valid() && k <= |acts|
  {
    |Exec(cfg, acts[..k]).db.pool|
  }

  /** Handler h has read this total by action i. */
  ghost predicate Sized(cfg: Config, acts: seq<Action>, h: nat, i: nat, total: nat)
    requires cfg.Valid()
  {
    i < |acts| && Sizes(cfg, acts, i, h) && total == PoolSizeAt(cfg, acts, i)
  }

  /** And has counted this many by action j. */
  ghost predicate Reported(cfg: Config, acts: seq<Action>, h: nat, i: nat, total: nat, j: nat, used: nat)
    requires cfg.Valid()
  {
    && Sized(cfg, acts, h, i, total)
    && i < j < |acts| && Tallies(cfg, acts, j, h) && used == PoolSizeAt(cfg, acts, j)
  }

  lemma ReportStays(cfg: Config, acts: seq<Action>, m: nat, h: nat, i: nat, total: nat, j: nat, used: nat)
    requires cfg.Valid() && m <= |acts|
    ensures Sized(cfg, acts[..m], h, i, total) ==> Sized(cfg, acts, h, i, total)
    ensures Reported(cfg, acts[..m], h, i, total, j, used) ==> Reported(cfg, acts, h, i, total, j, used)
  {
    if i < m {
      assert acts[..m][..i] == acts[..i];
    }
    if j < m {
      assert acts[..m][..j] == acts[..j];
    }
  }

  lemma {:induction false} TotalIsOldSize(cfg: Config, acts: seq<Action>, h: nat)
    requires cfg.Valid() && h in Exec(cfg, acts).procs && Exec(cfg, acts).procs[h].Tallying?
    ensures exists i: nat :: Sized(cfg, acts, h, i, Exec(cfg, acts).procs[h].total)
  {
    var last := |acts| - 1;
    var s, total := Exec(cfg, acts[..last]), Exec(cfg, acts).procs[h].total;
    if acts[last] == Advance(h) && h in s.procs {
      assert s.procs[h].Sizing?;
      assert Sized(cfg, acts, h, last, total);
    } else {
      assert h in s.procs && s.procs[h] == Exec(cfg, acts).procs[h];
      TotalIsOldSize(cfg, acts[..last], h);
      var i: nat :| Sized(cfg, acts[..last], h, i, total);
      ReportStays(cfg, acts, last, h, i, total, 0, 0);
    }
  }

  lemma AllAllocated(cfg: Config, db: Db)
    requires Consistent(cfg, db)
    ensures |Allocated(db.pool)| == |db.pool|
  {
    assert Allocated(db.pool) == db.pool.Keys;
  }

  lemma {:induction false} StatisticsAreOldSizes(cfg: Config, acts: seq<Action>, h: nat)
    requires cfg.Valid() && h in Exec(cfg, acts).procs && Exec(cfg, acts).procs[h].Told?
    ensures var p := Exec(cfg, acts).procs[h];
            exists i: nat, j: nat :: Reported(cfg, acts, h, i, p.total, j, p.used)
  {
    var last := |acts| - 1;
    var s, p := Exec(cfg, acts[..last]), Exec(cfg, acts).procs[h];
    if acts[last] == Advance(h) && h in s.procs && s.procs[h].Tallying? {
      AlwaysFine(cfg, acts[..last]);
      AllAllocated(cfg, s.db);
      TotalIsOldSize(cfg, acts[..last], h);
      var i: nat :| Sized(cfg, acts[..last], h, i, p.total);
      ReportStays(cfg, acts, last, h, i, p.total, 0, 0);
      assert Reported(cfg, acts, h, i, p.total, last, p.used);
    } else {
      assert h in s.procs && s.procs[h] == p;
      StatisticsAreOldSizes(cfg, acts[..last], h);
      var i: nat, j: nat :| Reported(cfg, acts[..last], h, i, p.total, j, p.used);
      ReportStays(cfg, acts, last, h, i, p.total, j, p.used);
    }
  }

  /** Over every run, what the statistics show as free is what the pool lost between their two counts: it is positive
      if and only if the pool was smaller at the second. */
  lemma FreeIsWhatWasReleased(cfg: Config, acts: seq<Action>, h: nat)
    requires cfg.Valid() && h in Exec(cfg, acts).procs && Exec(cfg, acts).procs[h].Told?
    ensures var p := Exec(cfg, acts).procs[h];
            exists i: nat, j: nat | i < j < |acts| ::
              && Sizes(cfg, acts, i, h) && Tallies(cfg, acts, j, h)
              && SaturatingSub(p.total, p.used) == SaturatingSub(PoolSizeAt(cfg, acts, i), PoolSizeAt(cfg, acts, j))
              && (SaturatingSub(p.total, p.used) > 0 <==> PoolSizeAt(cfg, acts, j) < PoolSizeAt(cfg, acts, i))
  {
    StatisticsAreOldSizes(cfg, acts, h);
    var p := Exec(cfg, acts).procs[h];
    var i: nat, j: nat :| Reported(cfg, acts, h, i, p.total, j, p.used);
    assert Sizes(cfg, acts, i, h) && Tallies(cfg, acts, j, h);
  }

  function OneRegistered(a: Request): seq<Action> {
    UpToSave(OneLooks(a), 0) + [Advance(0)]
  }

  function OneLooks(a: Request): seq<Action> {
    [] + [Spawn(0, Look(a))]
  }

  lemma OneSpawned(cfg: Config, a: Request)
    requires cfg.Valid()
    ensures var s := Exec(cfg, OneLooks(a)); OnlyPool(cfg, s.db, 0) && s.procs == map[0 := Look(a)]
  {
    Spawned(cfg, [], 0, Look(a));
  }

  lemma OneCounted(cfg: Config, a: Request)
    requires cfg.Valid()
    ensures var s := Exec(cfg, UpToSave(OneLooks(a), 0));
            OnlyPool(cfg, s.db, 1) && s.procs == map[0 := Save(a, cfg.base, Approved)]
  {
    OneSpawned(cfg, a);
    CountsNext(cfg, OneLooks(a), 0, Exec(cfg, OneLooks(a)), a, 0);
  }

  lemma RegistersOne(cfg: Config, a: Request)
    requires cfg.Valid()
    ensures var s := Exec(cfg, OneRegistered(a));
            && s.db.devices == map[a.newId := NewDevice(a, cfg.base, Approved)]
            && s.db.pool.Keys == {cfg.base} && |s.db.pool| == 1
            && s.procs == map[0 := Answered(a, Registered(a.newId, cfg.base, Approved))]
  {
    OneCounted(cfg, a);
    Saved(cfg, UpToSave(OneLooks(a), 0), 0, Exec(cfg, UpToSave(OneLooks(a), 0)), a, cfg.base);
  }

  /** A device is registered, and deleted between the two counts of the statistics: they show one address as free, which
      is neither in the pool nor was it ever unallocated. */
  lemma FreeAfterDeletion(cfg: Config, a: Request)
    requires cfg.Valid()
    ensures var s := Exec(cfg, OneRegistered(a) + [Spawn(1, Sizing)] + [Advance(1)]
                               + [Spawn(2, DeleteFreeing(a.newId))] + [Advance(2)] + [Advance(2)] + [Advance(1)]);
            1 in s.procs && s.procs[1] == Told(1, 0) && s.db == EMPTY
    ensures SaturatingSub(1, 0) == 1
  {
    var sized := OneRegistered(a) + [Spawn(1, Sizing)] + [Advance(1)];
    SizesOne(cfg, a);
    DeletesAll(cfg, sized, a.newId, Exec(cfg, sized));
    TellsNone(cfg, sized + [Spawn(2, DeleteFreeing(a.newId))] + [Advance(2)] + [Advance(2)]);
  }

  lemma TellsNone(cfg: Config, acts: seq<Action>)
    requires cfg.Valid()
    requires var s := Exec(cfg, acts); s.db == EMPTY && 1 in s.procs && s.procs[1] == Tallying(1)
    ensures var s := Exec(cfg, acts + [Advance(1)]); s.db == EMPTY && 1 in s.procs && s.procs[1] == Told(1, 0)
  {
    assert Allocated(map[]) == {};
    Advanced(cfg, acts, 1, EMPTY, Told(1, 0));
  }

  lemma SizesOne(cfg: Config, a: Request)
    requires cfg.Valid()
    ensures var s := Exec(cfg, OneRegistered(a) + [Spawn(1, Sizing)] + [Advance(1)]);
            && s.db.devices == map[a.newId := NewDevice(a, cfg.base, Approved)] && s.db.pool.Keys == {cfg.base}
            && 1 in s.procs && s.procs[1] == Tallying(1) && 2 !in s.procs
  {
    RegistersOne(cfg, a);
    var s := Exec(cfg, OneRegistered(a));
    Spawned(cfg, OneRegistered(a), 1, Sizing);
    Advanced(cfg, OneRegistered(a) + [Spawn(1, Sizing)], 1, s.db, Tallying(1));
  }

  lemma DeletesAll(cfg: Config, acts: seq<Action>, id: DeviceId, s: Sys)
    requires cfg.Valid() && Exec(cfg, acts) == s && 2 !in s.procs
    requires s.db.devices.Keys == {id} && s.db.devices[id].ipv4.Text?
    requires s.db.pool.Keys == {s.db.devices[id].ipv4.ip}
    ensures Exec(cfg, acts + [Spawn(2, DeleteFreeing(id))] + [Advance(2)] + [Advance(2)])
         == Sys(EMPTY, s.procs[2 := Finished])
  {
    Spawned(cfg, acts, 2, DeleteFreeing(id));
    assert FreeIpOf(s.db, id) == Db(s.db.devices, map[]);
    Advanced(cfg, acts + [Spawn(2, DeleteFreeing(id))], 2, Db(s.db.devices, map[]), Deleting(id));
    Advanced(cfg, acts + [Spawn(2, DeleteFreeing(id))] + [Advance(2)], 2, EMPTY, Finished);
  }
}
