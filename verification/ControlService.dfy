/** The handlers of the control service as methods on the database object: services/control/src/main.rs. Each is its
    program, run with no other handler in between. */
module ControlService {
  import opened Wrappers
  import opened ControlDb
  import opened ControlRuns
  import opened ControlRegistration

  class Service {
    const cfg: Config
    const store: Store

    constructor (cfg: Config)
      ensures this.cfg == cfg && fresh(store) && store.View() == EMPTY
    {
      this.cfg := cfg;
      store := new Store();
    }

    method HandleRegister(req: Request) returns (response: Response)
      requires cfg.Valid() && Consistent(cfg, store.View())
      modifies store
      ensures Register(cfg, old(store.View()), req) == (store.View(), response)
    {
      ghost var db := store.View();
      var existing := store.FindDevice(req.publicKey);
      if existing.Some? {
        AloneStep(cfg, db, Look(req));
        var row := store.devices[existing.value];
        return Registered(existing.value, Shown(row.ipv4), row.status);
      }
      NoneFree(cfg, db);
      RegisterNew(cfg, db, req);
      var ip := store.AllocateIp(cfg);
      if ip.None? {
        return Conflict;
      }
      var status := if |store.devices| == 0 then Approved else Pending;
      var ok := store.Insert(req.newId, NewDevice(req, ip.value, status));
      response := if ok then Registered(req.newId, ip.value, status) else InternalError;
    }

    method HandleHeartbeat(id: DeviceId, now: int) returns (ok: bool)
      requires cfg.Valid()
      modifies store
      ensures store.View() == RunAlone(cfg, old(store.View()), Beating(id, now)).0
      ensures ok <==> id in old(store.devices)
    {
      AloneStep(cfg, store.View(), Beating(id, now));
      ok := store.Touch(id, now);
    }

    method HandleApprove(id: DeviceId) returns (approved: bool)
      requires cfg.Valid()
      modifies store
      ensures store.View() == RunAlone(cfg, old(store.View()), Approving(id)).0
      ensures approved <==> CanApprove(old(store.View()), id)
    {
      AloneStep(cfg, store.View(), Approving(id));
      approved := store.ApproveDevice(id);
    }

    /** An error of the database is answered like a device that is not approved. */
    method HandleRevoke(id: DeviceId) returns (revoked: bool)
      requires cfg.Valid()
      modifies store
      ensures store.View() == RunAlone(cfg, old(store.View()), RevokeFreeing(id)).0
      ensures revoked <==> CanRevoke(old(store.View()), id)
    {
      RevokeAlone(cfg, store.View(), id);
      var r := store.RevokeDevice(id);
      revoked := r == Ok(true);
    }

    method HandleUnregister(id: DeviceId) returns (deleted: bool)
      requires cfg.Valid()
      modifies store
      ensures store.View() == RunAlone(cfg, old(store.View()), DeleteFreeing(id)).0
      ensures deleted <==> id in old(store.devices)
    {
      DeleteAlone(cfg, store.View(), id);
      deleted := store.DeleteDevice(id);
    }

    /** One tick of the purge task. */
    method Purge(now: int, staleTimeout: int)
      requires cfg.Valid()
      modifies store
      ensures store.View() == RunAlone(cfg, old(store.View()), PurgeFreeing(now - staleTimeout)).0
    {
      PurgeAlone(cfg, store.View(), now - staleTimeout);
      var _ := store.PurgeStale(now, staleTimeout);
    }

    /** With no other handler in between: since no row is ever free, the whole pool shows as used and nothing as free,
        which is the room left in the network exactly when the pool is full. */
    method HandleAllocations() returns (total: nat, used: nat, free: nat)
      requires cfg.Valid() && Consistent(cfg, store.View())
      ensures RunAlone(cfg, store.View(), Sizing) == (store.View(), Told(total, used))
      ensures total == used == |store.pool| && free == 0
      ensures free == cfg.maxOffset + 1 - |store.pool| <==> |store.pool| == cfg.maxOffset + 1
    {
      AllocationsAlone(cfg, store.View());
      total := store.PoolSize();
      used := store.AllocatedCount();
      free := SaturatingSub(total, used);
    }
  }
}
