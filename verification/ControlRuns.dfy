/** The handlers of the control service as programs over the tables: services/control/src/main.rs. No handler is a
    transaction: each SQL statement is one atomic step, and a run interleaves the steps of any number of handlers. */
module ControlRuns {
  import opened ControlDb

  /** A registration request, with the id and the time its handler will draw. */
  datatype Request = Request(publicKey: PublicKey, hostname: string, newId: DeviceId, now: int)

  datatype Response = Registered(id: DeviceId, ip: Ip, status: Status) | Conflict | InternalError

  /** Where a handler is, with its locals. */
  datatype Proc =
    // handle_register
    | Look(req: Request)
    | SelectFree(req: Request)
    | Reuse(req: Request, ip: Ip)
    | Count(req: Request)
    | Take(req: Request, ip: Ip)
    | First(req: Request, ip: Ip)
    | Save(req: Request, ip: Ip, status: Status)
    | Answered(req: Request, response: Response)
    // handle_approve, handle_heartbeat
    | Approving(id: DeviceId)
    | Beating(id: DeviceId, now: int)
    // handle_revoke
    | RevokeFreeing(id: DeviceId)
    | Revoking(id: DeviceId)
    // handle_unregister
    | DeleteFreeing(id: DeviceId)
    | Deleting(id: DeviceId)
    // the purge task
    | PurgeFreeing(cutoff: int)
    | Purging(cutoff: int)
    | Finished
    // handle_allocations
    | Sizing
    | Tallying(total: nat)
    | Told(total: nat, used: nat)

  predicate IsStart(p: Proc) {
    || p.Look? || p.Approving? || p.Beating? || p.RevokeFreeing? || p.DeleteFreeing? || p.PurgeFreeing? || p.Sizing?
  }

  predicate Registering(p: Proc) {
    || p.Look? || p.SelectFree? || p.Reuse? || p.Count? || p.Take? || p.First? || p.Save? || p.Answered?
  }

  predicate Halted(p: Proc) {
    p.Answered? || p.Finished? || p.Told?
  }

  /** An upper bound on the statements a handler still has to run. */
  function Remaining(p: Proc): nat {
    match p
    case Look(_) => 6
    case SelectFree(_) => 5
    case Reuse(_, _) => 3
    case Count(_) => 4
    case Take(_, _) => 3
    case First(_, _) => 2
    case Save(_, _, _) => 1
    case RevokeFreeing(_) => 2
    case DeleteFreeing(_) => 2
    case PurgeFreeing(_) => 2
    case Sizing => 2
    case Told(_, _) => 0
    case Answered(_, _) => 0
    case Finished => 0
    case _ => 1
  }

  function NewDevice(req: Request, ip: Ip, status: Status): Device {
    Device(req.publicKey, req.hostname, Text(ip), status, req.now, req.now)
  }

  /** One statement of `handle_register`. */
  ghost function RegisterStep(cfg: Config, db: Db, p: Proc): (r: (Db, Proc))
    requires cfg.Valid() && Registering(p)
    ensures Registering(r.1) && r.1.req == p.req && (Halted(p) || Remaining(r.1) < Remaining(p))
  {
    match p
    case Look(req) =>
      (match FindByPublicKey(db, req.publicKey)
       case Some(id) => (db, Answered(req, Registered(id, Shown(db.devices[id].ipv4), db.devices[id].status)))
       case None => (db, SelectFree(req)))
    case SelectFree(req) =>
      (match FindFree(db)
       case Some(ip) => (db, Reuse(req, ip))
       case None => (db, Count(req)))
    case Reuse(req, ip) => (MarkAllocated(db, ip), First(req, ip))
    case Count(req) =>
      if |db.pool| > cfg.maxOffset then (db, Answered(req, Conflict)) else (db, Take(req, cfg.base + |db.pool|))
    case Take(req, ip) => (InsertIp(db, ip), First(req, ip))
    case First(req, ip) => (db, Save(req, ip, if |db.devices| == 0 then Approved else Pending))
    case Save(req, ip, status) =>
      var d := NewDevice(req, ip, status);
      (InsertDevice(db, req.newId, d),
       Answered(req, if CanInsert(db, req.newId, d) then Registered(req.newId, ip, status) else InternalError))
    case Answered(_, _) => (db, p)
  }

  /** One statement of another handler. */
  function AdminStep(db: Db, p: Proc): (r: (Db, Proc))
    requires !Registering(p)
    ensures !Registering(r.1) && (Halted(p) || Remaining(r.1) < Remaining(p))
  {
    match p
    case Approving(id) => (Approve(db, id), Finished)
    case Beating(id, now) => (Heartbeat(db, id, now), Finished)
    case RevokeFreeing(id) => (FreeIpOf(db, id), Revoking(id))
    case Revoking(id) => (Revoke(db, id), Finished)
    case DeleteFreeing(id) => (FreeIpOf(db, id), Deleting(id))
    case Deleting(id) => (DeleteRow(db, id), Finished)
    case PurgeFreeing(cutoff) => (PurgeIps(db, cutoff), Purging(cutoff))
    case Purging(cutoff) => (PurgeRows(db, cutoff), Finished)
    case Finished => (db, p)
    case Sizing => (db, Tallying(|db.pool|))
    case Tallying(total) => (db, Told(total, |Allocated(db.pool)|))
    case Told(_, _) => (db, p)
  }

  /** One statement of one handler. */
  ghost function Step(cfg: Config, db: Db, p: Proc): (r: (Db, Proc))
    requires cfg.Valid()
    ensures Registering(r.1) <==> Registering(p)
    ensures Registering(p) ==> r.1.req == p.req
    ensures Halted(p) || Remaining(r.1) < Remaining(p)
  {
    if Registering(p) then RegisterStep(cfg, db, p) else AdminStep(db, p)
  }

  /** A handler that runs to its end with no other handler in between. */
  ghost function RunAlone(cfg: Config, db: Db, p: Proc): (r: (Db, Proc))
    requires cfg.Valid()
    ensures Halted(r.1)
    ensures Registering(p) ==> r.1.Answered? && r.1.req == p.req
    decreases Remaining(p)
  {
    if Halted(p) then (db, p)
    else
      var (db', p') := Step(cfg, db, p);
      RunAlone(cfg, db', p')
  }

  lemma AloneStep(cfg: Config, db: Db, p: Proc)
    requires cfg.Valid() && !Halted(p)
    ensures RunAlone(cfg, db, p) == RunAlone(cfg, Step(cfg, db, p).0, Step(cfg, db, p).1)
  {
  }

  lemma RevokeAlone(cfg: Config, db: Db, id: DeviceId)
    requires cfg.Valid()
    ensures RunAlone(cfg, db, RevokeFreeing(id)) == (Revoke(FreeIpOf(db, id), id), Finished)
  {
    AloneStep(cfg, db, RevokeFreeing(id));
    AloneStep(cfg, FreeIpOf(db, id), Revoking(id));
  }

  lemma DeleteAlone(cfg: Config, db: Db, id: DeviceId)
    requires cfg.Valid()
    ensures RunAlone(cfg, db, DeleteFreeing(id)) == (DeleteRow(FreeIpOf(db, id), id), Finished)
  {
    AloneStep(cfg, db, DeleteFreeing(id));
    AloneStep(cfg, FreeIpOf(db, id), Deleting(id));
  }

  lemma PurgeAlone(cfg: Config, db: Db, cutoff: int)
    requires cfg.Valid()
    ensures RunAlone(cfg, db, PurgeFreeing(cutoff)) == (PurgeRows(PurgeIps(db, cutoff), cutoff), Finished)
  {
    AloneStep(cfg, db, PurgeFreeing(cutoff));
    AloneStep(cfg, PurgeIps(db, cutoff), Purging(cutoff));
  }

  lemma AllocationsAlone(cfg: Config, db: Db)
    requires cfg.Valid()
    ensures RunAlone(cfg, db, Sizing) == (db, Told(|db.pool|, |Allocated(db.pool)|))
  {
    AloneStep(cfg, db, Sizing);
    AloneStep(cfg, db, Tallying(|db.pool|));
  }

  /** `handle_register` with no other handler in between. */
  ghost function Register(cfg: Config, db: Db, req: Request): (Db, Response)
    requires cfg.Valid()
  {
    var (after, p) := RunAlone(cfg, db, Look(req));
    (after, p.response)
  }

  /** `handle_allocations` shows the total without the used as free. */
  function SaturatingSub(a: nat, b: nat): nat {
    if a < b then 0 else a - b
  }

  // ── Runs ──

  datatype Sys = Sys(db: Db, procs: map<nat, Proc>)

  datatype Action = Spawn(handler: nat, start: Proc) | Advance(handler: nat)

  ghost function Apply(cfg: Config, s: Sys, act: Action): Sys
    requires cfg.Valid()
  {
    match act
    case Spawn(h, p) => if h !in s.procs && IsStart(p) then s.(procs := s.procs[h := p]) else s
    case Advance(h) =>
      if h !in s.procs then s
      else
        var (db', p') := Step(cfg, s.db, s.procs[h]);
        Sys(db', s.procs[h := p'])
  }

  ghost function Exec(cfg: Config, acts: seq<Action>): Sys
    requires cfg.Valid()
  {
    if acts == [] then Sys(EMPTY, map[]) else Apply(cfg, Exec(cfg, acts[..|acts| - 1]), acts[|acts| - 1])
  }

  // ── The invariant of all runs ──

  /** No handler reuses a row, and every address on its way into the tables is in the network. */
  predicate ProcFine(cfg: Config, p: Proc) {
    match p
    case Reuse(_, _) => false
    case Take(_, ip) => cfg.Holds(ip)
    case First(_, ip) => cfg.Holds(ip)
    case Save(_, ip, status) => cfg.Holds(ip) && status != Revoked
    case _ => true
  }

  ghost predicate SysFine(cfg: Config, s: Sys) {
    Consistent(cfg, s.db) && forall h <- s.procs :: ProcFine(cfg, s.procs[h])
  }

  lemma RegisterKeepsFine(cfg: Config, db: Db, p: Proc)
    requires cfg.Valid() && Registering(p) && Consistent(cfg, db) && ProcFine(cfg, p)
    ensures Consistent(cfg, RegisterStep(cfg, db, p).0) && ProcFine(cfg, RegisterStep(cfg, db, p).1)
  {
    match p
    case Look(_) =>
    case SelectFree(_) => NoneFree(cfg, db);
    case Count(_) =>
    case Take(_, ip) => InsertIpKeeps(cfg, db, ip);
    case First(_, _) =>
    case Save(req, ip, status) => InsertDeviceKeeps(cfg, db, req.newId, NewDevice(req, ip, status));
    case Answered(_, _) =>
  }

  lemma NoneFree(cfg: Config, db: Db)
    requires Consistent(cfg, db)
    ensures FindFree(db).None? && Free(db.pool) == {}
  {
    assert Free(db.pool) == {};
  }

  lemma AdminKeepsConsistent(cfg: Config, db: Db, p: Proc)
    requires !Registering(p) && Consistent(cfg, db)
    ensures Consistent(cfg, AdminStep(db, p).0)
  {
    match p
    case Approving(id) => ApproveKeeps(cfg, db, id);
    case Beating(id, now) => HeartbeatKeeps(cfg, db, id, now);
    case Revoking(id) => RevokeKeeps(cfg, db, id);
    case RevokeFreeing(id) => RemovalKeeps(cfg, db, FreeIpOf(db, id));
    case DeleteFreeing(id) => RemovalKeeps(cfg, db, FreeIpOf(db, id));
    case Deleting(id) => RemovalKeeps(cfg, db, DeleteRow(db, id));
    case PurgeFreeing(cutoff) => RemovalKeeps(cfg, db, PurgeIps(db, cutoff));
    case Purging(cutoff) => RemovalKeeps(cfg, db, PurgeRows(db, cutoff));
    case Finished =>
    case Sizing =>
    case Tallying(_) =>
    case Told(_, _) =>
  }

  lemma StepKeepsFine(cfg: Config, db: Db, p: Proc)
    requires cfg.Valid() && Consistent(cfg, db) && ProcFine(cfg, p)
    ensures Consistent(cfg, Step(cfg, db, p).0) && ProcFine(cfg, Step(cfg, db, p).1)
  {
    if Registering(p) {
      RegisterKeepsFine(cfg, db, p);
    } else {
      AdminKeepsConsistent(cfg, db, p);
    }
  }

  /** Whatever the handlers do and however they interleave, the tables stay consistent and the branch of `allocate_ip`
      that reuses a free row is never taken. */
  lemma {:induction false} AlwaysFine(cfg: Config, acts: seq<Action>)
    requires cfg.Valid()
    ensures SysFine(cfg, Exec(cfg, acts))
  {
    if acts == [] {
    } else {
      var before, last := acts[..|acts| - 1], acts[|acts| - 1];
      AlwaysFine(cfg, before);
      var s := Exec(cfg, before);
      if last.Advance? && last.handler in s.procs {
        StepKeepsFine(cfg, s.db, s.procs[last.handler]);
      }
    }
  }

  /** The state invariant in the terms of the tables. */
  lemma ReachableTables(cfg: Config, acts: seq<Action>)
    requires cfg.Valid()
    ensures var db := Exec(cfg, acts).db;
            && (forall id <- db.devices :: db.devices[id].status == Revoked <==> db.devices[id].ipv4 == Blank)
            && (forall x, y | x in db.devices && y in db.devices ::
                  db.devices[x].status == Revoked && db.devices[y].status == Revoked ==> x == y)
            && (forall x, y | x in db.devices && y in db.devices && db.devices[x].ipv4.Text? ::
                  db.devices[x].ipv4 == db.devices[y].ipv4 ==> x == y)
            && (forall id <- db.devices :: db.devices[id].ipv4.Text? ==> cfg.Holds(db.devices[id].ipv4.ip))
            && (forall ip <- db.pool :: cfg.Holds(ip) && db.pool[ip])
            && |db.pool| <= cfg.maxOffset + 1
  {
    AlwaysFine(cfg, acts);
    ConsistentMeans(cfg, Exec(cfg, acts).db);
  }
}
