/** What happens to one device over a run, and what revoking and deleting do to the address pool. */
module ControlLifecycle {
  import opened ControlDb
  import opened ControlRuns
  import opened ControlRegistration

  // ── One row over a run ──

  function Stage(s: Status): nat {
    match s
    case Pending => 0
    case Approved => 1
    case Revoked => 2
  }

  /** The later row is the earlier one, at the same or a later stage of its life. */
  predicate Becomes(d: Device, e: Device) {
    && e.publicKey == d.publicKey && e.hostname == d.hostname && e.createdAt == d.createdAt
    && Stage(d.status) <= Stage(e.status)
  }

  /** One statement: rows that stay follow Pending, Approved, Revoked one stage at a time and keep key and creation
      time; a row goes away only by its own deletion, or by a purge that finds it stale and not Approved. */
  lemma StatementOnRows(cfg: Config, db: Db, p: Proc)
    requires cfg.Valid()
    ensures RowsFollow(db, p, Step(cfg, db, p).0)
  {
    if Registering(p) {
      assert db.devices.Keys <= RegisterStep(cfg, db, p).0.devices.Keys;
    } else {
      AdminOnRows(db, p);
    }
  }

  ghost predicate RowsFollow(db: Db, p: Proc, db': Db) {
    && (forall id <- db.devices :: id in db'.devices ==>
          && Becomes(db.devices[id], db'.devices[id])
          && Stage(db'.devices[id].status) <= Stage(db.devices[id].status) + 1)
    && (forall id <- db.devices :: id !in db'.devices ==>
          p == Deleting(id) || (p.Purging? && Purgeable(db.devices[id], p.cutoff)))
  }

  lemma AdminOnRows(db: Db, p: Proc)
    requires !Registering(p)
    ensures RowsFollow(db, p, AdminStep(db, p).0)
  {
  }

  /** The device has a row in every state from i to j. */
  ghost predicate Stays(cfg: Config, acts: seq<Action>, i: nat, j: nat, id: DeviceId)
    requires cfg.Valid() && i <= j <= |acts|
  {
    forall k: nat | i <= k <= j :: id in Exec(cfg, acts[..k]).db.devices
  }

  lemma ExecStep(cfg: Config, acts: seq<Action>, k: nat)
    requires cfg.Valid() && k < |acts|
    ensures Exec(cfg, acts[..k + 1]) == Apply(cfg, Exec(cfg, acts[..k]), acts[k])
  {
    assert acts[..k + 1][..k] == acts[..k];
  }

  lemma RowOnce(cfg: Config, acts: seq<Action>, k: nat, id: DeviceId)
    requires cfg.Valid() && k < |acts|
    requires id in Exec(cfg, acts[..k]).db.devices && id in Exec(cfg, acts[..k + 1]).db.devices
    ensures var d, e := Exec(cfg, acts[..k]).db.devices[id], Exec(cfg, acts[..k + 1]).db.devices[id];
            Becomes(d, e) && Stage(e.status) <= Stage(d.status) + 1
  {
    var s := Exec(cfg, acts[..k]);
    ExecStep(cfg, acts, k);
    if acts[k].Advance? && acts[k].handler in s.procs {
      StatementOnRows(cfg, s.db, s.procs[acts[k].handler]);
    }
  }

  /** Over any stretch of any run. */
  lemma {:induction false} RowOverRun(cfg: Config, acts: seq<Action>, i: nat, j: nat, id: DeviceId)
    requires cfg.Valid() && i <= j <= |acts| && Stays(cfg, acts, i, j, id)
    ensures Becomes(Exec(cfg, acts[..i]).db.devices[id], Exec(cfg, acts[..j]).db.devices[id])
    decreases j - i
  {
    if i == j {
    } else {
      RowOverRun(cfg, acts, i, j - 1, id);
      assert id in Exec(cfg, acts[..j - 1]).db.devices && id in Exec(cfg, acts[..j]).db.devices;
      RowOnce(cfg, acts, j - 1, id);
    }
  }

  /** The statement of action k takes the row of the device out: its own deletion, or a purge that finds the row stale
      and not Approved. */
  ghost predicate TakesOut(cfg: Config, acts: seq<Action>, k: nat, id: DeviceId)
    requires cfg.Valid() && k < |acts|
  {
    var s, act := Exec(cfg, acts[..k]), acts[k];
    && id in s.db.devices && act.Advance? && act.handler in s.procs
    && var p := s.procs[act.handler];
       p == Deleting(id) || (p.Purging? && Purgeable(s.db.devices[id], p.cutoff))
  }

  /** A row that is gone was taken out in between, by a deletion of that very device or by a purge that found it stale
      and not Approved. */
  lemma {:induction false} GoneWasTakenOut(cfg: Config, acts: seq<Action>, i: nat, j: nat, id: DeviceId)
    requires cfg.Valid() && i <= j <= |acts|
    requires id in Exec(cfg, acts[..i]).db.devices && id !in Exec(cfg, acts[..j]).db.devices
    ensures exists k: nat | i <= k < j :: TakesOut(cfg, acts, k, id)
    decreases j - i
  {
    if id in Exec(cfg, acts[..j - 1]).db.devices {
      GoneOnce(cfg, acts, j - 1, id);
    } else {
      GoneWasTakenOut(cfg, acts, i, j - 1, id);
    }
  }

  lemma GoneOnce(cfg: Config, acts: seq<Action>, k: nat, id: DeviceId)
    requires cfg.Valid() && k < |acts|
    requires id in Exec(cfg, acts[..k]).db.devices && id !in Exec(cfg, acts[..k + 1]).db.devices
    ensures TakesOut(cfg, acts, k, id)
  {
    var s := Exec(cfg, acts[..k]);
    ExecStep(cfg, acts, k);
    if acts[k].Advance? && acts[k].handler in s.procs {
      StatementOnRows(cfg, s.db, s.procs[acts[k].handler]);
    }
  }

  /** No stage is skipped: a row that was Pending and is Revoked was Approved in between. */
  lemma {:induction false} RevokedWasApproved(cfg: Config, acts: seq<Action>, i: nat, j: nat, id: DeviceId)
    requires cfg.Valid() && i <= j <= |acts| && Stays(cfg, acts, i, j, id)
    requires Exec(cfg, acts[..i]).db.devices[id].status == Pending
    requires Exec(cfg, acts[..j]).db.devices[id].status == Revoked
    ensures exists k: nat | i < k < j :: Exec(cfg, acts[..k]).db.devices[id].status == Approved
    decreases j - i
  {
    assert id in Exec(cfg, acts[..j - 1]).db.devices && id in Exec(cfg, acts[..j]).db.devices;
    RowOnce(cfg, acts, j - 1, id);
    if Exec(cfg, acts[..j - 1]).db.devices[id].status == Revoked {
      RevokedWasApproved(cfg, acts, i, j - 1, id);
    } else {
      assert i < j - 1;
    }
  }

  // ── Registering twice ──

  /** Action i makes a handler answer a registration of the key with the device id. */
  ghost predicate Answers(cfg: Config, acts: seq<Action>, i: nat, pk: PublicKey, id: DeviceId)
    requires cfg.Valid() && i < |acts|
  {
    var s, act := Exec(cfg, acts[..i]), acts[i];
    && act.Advance? && act.handler in s.procs && !Halted(s.procs[act.handler])
    && var p := Step(cfg, s.db, s.procs[act.handler]).1;
       p.Answered? && p.req.publicKey == pk && p.response.Registered? && p.response.id == id
  }

  ghost predicate HasRow(db: Db, pk: PublicKey, id: DeviceId) {
    id in db.devices && db.devices[id].publicKey == pk
  }

  /** Action k removes no row of the key. */
  ghost predicate KeepsKey(cfg: Config, acts: seq<Action>, k: nat, pk: PublicKey)
    requires cfg.Valid() && k < |acts|
  {
    forall id: DeviceId :: HasRow(Exec(cfg, acts[..k]).db, pk, id) ==> id in Exec(cfg, acts[..k + 1]).db.devices
  }

  lemma AnswerIsInTable(cfg: Config, acts: seq<Action>, i: nat, pk: PublicKey, id: DeviceId)
    requires cfg.Valid() && i < |acts| && Answers(cfg, acts, i, pk, id)
    ensures HasRow(Exec(cfg, acts[..i + 1]).db, pk, id)
  {
    ExecStep(cfg, acts, i);
    var s := Exec(cfg, acts[..i]);
    var p := s.procs[acts[i].handler];
    assert p.Look? || p.Save?;
  }

  lemma {:induction false} KeyStays(cfg: Config, acts: seq<Action>, i: nat, j: nat, pk: PublicKey, id: DeviceId)
    requires cfg.Valid() && i <= j <= |acts| && HasRow(Exec(cfg, acts[..i]).db, pk, id)
    requires forall k: nat | i <= k < j :: KeepsKey(cfg, acts, k, pk)
    ensures HasRow(Exec(cfg, acts[..j]).db, pk, id)
    decreases j - i
  {
    if i == j {
    } else {
      KeyStays(cfg, acts, i, j - 1, pk, id);
      KeyStaysOnce(cfg, acts, j - 1, pk, id);
    }
  }

  lemma KeyStaysOnce(cfg: Config, acts: seq<Action>, k: nat, pk: PublicKey, id: DeviceId)
    requires cfg.Valid() && k < |acts| && HasRow(Exec(cfg, acts[..k]).db, pk, id) && KeepsKey(cfg, acts, k, pk)
    ensures HasRow(Exec(cfg, acts[..k + 1]).db, pk, id)
  {
    var s := Exec(cfg, acts[..k]);
    ExecStep(cfg, acts, k);
    if acts[k].Advance? && acts[k].handler in s.procs {
      StatementOnRows(cfg, s.db, s.procs[acts[k].handler]);
    }
  }

  /** Registration is idempotent even when handlers race: two successful answers for one key, with no removal of the
      key in between, name the same device. */
  lemma SameKeySameDevice(cfg: Config, acts: seq<Action>, i: nat, j: nat, pk: PublicKey, x: DeviceId, y: DeviceId)
    requires cfg.Valid() && i < j < |acts|
    requires Answers(cfg, acts, i, pk, x) && Answers(cfg, acts, j, pk, y)
    requires forall k: nat | i < k < j :: KeepsKey(cfg, acts, k, pk)
    ensures x == y
  {
    AnswerIsInTable(cfg, acts, i, pk, x);
    KeyStays(cfg, acts, i + 1, j, pk, x);
    AnswerIsInTable(cfg, acts, j, pk, y);
    ExecStep(cfg, acts, j);
    var s := Exec(cfg, acts[..j]);
    StatementOnRows(cfg, s.db, s.procs[acts[j].handler]);
    AlwaysFine(cfg, acts[..j + 1]);
  }

  // ── Releasing addresses ──

  /** Revoking, of any id: the devices change if and only if the device is Approved and no device is revoked yet,
      because '' may stand only once in a UNIQUE column. The address of the device leaves the pool in any case, so
      after a failure a device, even a Pending one, holds an address that the pool does not. */
  lemma RevokeOutcome(cfg: Config, db: Db, id: DeviceId)
    requires cfg.Valid() && Consistent(cfg, db)
    ensures var after := RunAlone(cfg, db, RevokeFreeing(id)).0;
            && (after.devices != db.devices <==>
                  && id in db.devices && db.devices[id].status == Approved
                  && forall x <- db.devices :: db.devices[x].status != Revoked)
            && (after.devices != db.devices ==>
                  after.devices == db.devices[id := db.devices[id].(status := Revoked, ipv4 := Blank)])
            && after.pool == if id in db.devices && db.devices[id].ipv4.Text? then db.pool - {db.devices[id].ipv4.ip}
                             else db.pool
  {
    RevokeAlone(cfg, db, id);
    if CanRevoke(FreeIpOf(db, id), id) {
      assert Revoke(FreeIpOf(db, id), id).devices[id].status == Revoked;
    }
  }

  lemma FirstDevice(cfg: Config, a: Request)
    requires cfg.Valid()
    ensures AfterAll(cfg, [a]) == Db(map[a.newId := NewDevice(a, cfg.base, Approved)], map[cfg.base := true])
  {
    assert [a][..0] == [];
    NextTables(cfg, EMPTY, a, 0);
  }

  lemma SecondDevice(cfg: Config, a: Request, b: Request)
    requires cfg.Valid() && cfg.maxOffset >= 1 && a.publicKey != b.publicKey && a.newId != b.newId
    ensures var one := AfterAll(cfg, [a]);
            AfterAll(cfg, [a, b]) ==
              Db(one.devices[b.newId := NewDevice(b, cfg.base + 1, Pending)], one.pool[cfg.base + 1 := true])
  {
    assert [a, b][..1] == [a];
    FirstDevice(cfg, a);
    var one := AfterAll(cfg, [a]);
    SecondHasRoom(cfg, a, b, one);
    NextTables(cfg, one, b, 1);
  }

  lemma SecondHasRoom(cfg: Config, a: Request, b: Request, one: Db)
    requires cfg.Valid() && cfg.maxOffset >= 1 && a.publicKey != b.publicKey && a.newId != b.newId
    requires one == Db(map[a.newId := NewDevice(a, cfg.base, Approved)], map[cfg.base := true])
    ensures Consistent(cfg, one) && IsNew(one, b) && HasRoom(cfg, one) && |one.pool| == 1 && one.devices != map[]
  {
    assert a.newId in one.devices;
  }

  lemma TwoDevices(cfg: Config, a: Request, b: Request)
    requires cfg.Valid() && cfg.maxOffset >= 1 && a.publicKey != b.publicKey && a.newId != b.newId
    ensures AfterAll(cfg, [a, b]) ==
              Db(map[a.newId := NewDevice(a, cfg.base, Approved), b.newId := NewDevice(b, cfg.base + 1, Pending)],
                 map[cfg.base := true, cfg.base + 1 := true])
  {
    FirstDevice(cfg, a);
    SecondDevice(cfg, a, b);
  }

  /** Revoking an approved device can fail: register two devices, approve the second (the first is approved as the first
      of all), then revoke both. The second revocation leaves the device Approved and with its address, which is no
      longer in the pool. */
  lemma SecondRevokeFails(cfg: Config, a: Request, b: Request)
    requires cfg.Valid() && cfg.maxOffset >= 1 && a.publicKey != b.publicKey && a.newId != b.newId
    ensures var approved := RunAlone(cfg, AfterAll(cfg, [a, b]), Approving(b.newId)).0;
            var one := RunAlone(cfg, approved, RevokeFreeing(a.newId)).0;
            var two := RunAlone(cfg, one, RevokeFreeing(b.newId)).0;
            && a.newId in one.devices && one.devices[a.newId].status == Revoked && cfg.base !in one.pool
            && b.newId in one.devices && one.devices[b.newId] == NewDevice(b, cfg.base + 1, Approved)
            && cfg.base + 1 in one.pool
            && two.devices == one.devices && cfg.base + 1 !in two.pool
  {
    BothApproved(cfg, a, b);
    RevokeBoth(cfg, RunAlone(cfg, AfterAll(cfg, [a, b]), Approving(b.newId)).0, a.newId, b.newId);
  }

  lemma BothApproved(cfg: Config, a: Request, b: Request)
    requires cfg.Valid() && cfg.maxOffset >= 1 && a.publicKey != b.publicKey && a.newId != b.newId
    ensures RunAlone(cfg, AfterAll(cfg, [a, b]), Approving(b.newId)).0 ==
              Db(map[a.newId := NewDevice(a, cfg.base, Approved), b.newId := NewDevice(b, cfg.base + 1, Approved)],
                 map[cfg.base := true, cfg.base + 1 := true])
  {
    TwoDevices(cfg, a, b);
    var db := AfterAll(cfg, [a, b]);
    AloneStep(cfg, db, Approving(b.newId));
    assert b.newId in db.devices && CanApprove(db, b.newId);
  }

  lemma RevokeBoth(cfg: Config, db: Db, x: DeviceId, y: DeviceId)
    requires cfg.Valid() && x != y && db.devices.Keys == {x, y}
    requires forall id <- db.devices :: db.devices[id].status == Approved && db.devices[id].ipv4.Text?
    requires db.devices[x].ipv4 != db.devices[y].ipv4
    ensures var one := RunAlone(cfg, db, RevokeFreeing(x)).0;
            var two := RunAlone(cfg, one, RevokeFreeing(y)).0;
            && one.devices == db.devices[x := db.devices[x].(status := Revoked, ipv4 := Blank)]
            && one.pool == db.pool - {db.devices[x].ipv4.ip}
            && two.devices == one.devices && two.pool == one.pool - {db.devices[y].ipv4.ip}
  {
    RevokeAlone(cfg, db, x);
    assert x in db.devices && y in db.devices;
    var one := RunAlone(cfg, db, RevokeFreeing(x)).0;
    assert CanRevoke(FreeIpOf(db, x), x);
    RevokeAlone(cfg, one, y);
    assert x in one.devices && !CanRevoke(FreeIpOf(one, y), y);
  }

  /** A freed address need not be usable again: once the first of two devices is deleted, base + COUNT is the address
      the second one holds, and every registration of a new key fails although the base address is free. */
  lemma ReleaseBlocksRegistration(cfg: Config, a: Request, b: Request, c: Request)
    requires cfg.Valid() && cfg.maxOffset >= 1
    requires a.publicKey != b.publicKey && b.publicKey != c.publicKey
    requires a.newId != b.newId && b.newId != c.newId
    ensures var freed := RunAlone(cfg, AfterAll(cfg, [a, b]), DeleteFreeing(a.newId)).0;
            && Register(cfg, freed, c) == (freed, InternalError)
            && freed.devices.Keys == {b.newId} && cfg.base !in freed.pool
  {
    FreedTables(cfg, a, b);
    BlockedByHolder(cfg, RunAlone(cfg, AfterAll(cfg, [a, b]), DeleteFreeing(a.newId)).0, b, c);
  }

  lemma FreedTables(cfg: Config, a: Request, b: Request)
    requires cfg.Valid() && cfg.maxOffset >= 1 && a.publicKey != b.publicKey && a.newId != b.newId
    ensures RunAlone(cfg, AfterAll(cfg, [a, b]), DeleteFreeing(a.newId)).0
         == Db(map[b.newId := NewDevice(b, cfg.base + 1, Pending)], map[cfg.base + 1 := true])
  {
    TwoDevices(cfg, a, b);
    DeleteAlone(cfg, AfterAll(cfg, [a, b]), a.newId);
    OneOfTwo(a.newId, NewDevice(a, cfg.base, Approved), cfg.base,
             b.newId, NewDevice(b, cfg.base + 1, Pending), cfg.base + 1);
  }

  lemma OneOfTwo(x: DeviceId, d: Device, p: Ip, y: DeviceId, e: Device, q: Ip)
    requires x != y && p != q && d.ipv4 == Text(p)
    ensures var db := Db(map[x := d, y := e], map[p := true, q := true]);
            DeleteRow(FreeIpOf(db, x), x) == Db(map[y := e], map[q := true])
  {
    assert x in map[x := d, y := e];
  }

  lemma BlockedByHolder(cfg: Config, db: Db, b: Request, c: Request)
    requires cfg.Valid() && cfg.maxOffset >= 1 && b.publicKey != c.publicKey
    requires db.devices == map[b.newId := NewDevice(b, cfg.base + 1, Pending)] && db.pool == map[cfg.base + 1 := true]
    ensures Register(cfg, db, c) == (db, InternalError)
  {
    assert b.newId in db.devices && |db.pool| == 1;
    RegisterNew(cfg, db, c);
  }
}
