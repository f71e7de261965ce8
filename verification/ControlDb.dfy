/** The tables of the control service and its SQL statements: services/control/src/db.rs. Each statement is one
    function from the tables before to the tables after. */
module ControlDb {
  import opened Wrappers
  import opened Bytes
  import opened AddressText

  type Ip = U32
  type DeviceId = nat
  type PublicKey = nat

  /** The TEXT column `ipv4`: an address, or the empty string. */
  datatype IpText = Blank | Text(ip: Ip)

  datatype Status = Pending | Approved | Revoked

  /** An error of the database that the handlers see. */
  datatype DbError = UniqueViolated

  datatype Device = Device(
    publicKey: PublicKey, hostname: string, ipv4: IpText, status: Status, createdAt: int, lastSeen: int)

  /** `devices` by primary key, and `ip_pool` as address to `allocated`. */
  datatype Db = Db(devices: map<DeviceId, Device>, pool: map<Ip, bool>)

  const EMPTY: Db := Db(map[], map[])

  /** The address a row shows; one that does not parse shows as 0.0.0.0. */
  function Shown(t: IpText): Ip {
    if t.Text? then t.ip else 0
  }

  // ── Statements on devices ──

  /** SELECT ... WHERE public_key = ? */
  ghost function FindByPublicKey(db: Db, pk: PublicKey): (r: Option<DeviceId>)
    ensures r.Some? ==> r.value in db.devices && db.devices[r.value].publicKey == pk
    ensures r.None? ==> forall id <- db.devices :: db.devices[id].publicKey != pk
  {
    if exists id :: id in db.devices && db.devices[id].publicKey == pk
    then var id :| id in db.devices && db.devices[id].publicKey == pk; Some(id)
    else None
  }

  /** The UNIQUE columns and the primary key allow the row. */
  predicate CanInsert(db: Db, id: DeviceId, d: Device) {
    && id !in db.devices
    && forall x <- db.devices :: db.devices[x].publicKey != d.publicKey && db.devices[x].ipv4 != d.ipv4
  }

  /** INSERT INTO devices ...; a violated constraint is an error and leaves the table alone. */
  function InsertDevice(db: Db, id: DeviceId, d: Device): Db {
    if CanInsert(db, id, d) then db.(devices := db.devices[id := d]) else db
  }

  /** UPDATE devices SET last_seen = ? WHERE device_id = ? */
  function Heartbeat(db: Db, id: DeviceId, now: int): Db {
    if id in db.devices then db.(devices := db.devices[id := db.devices[id].(lastSeen := now)]) else db
  }

  predicate CanApprove(db: Db, id: DeviceId) {
    id in db.devices && db.devices[id].status == Pending
  }

  /** UPDATE devices SET status = 1 WHERE device_id = ? AND status = 0 */
  function Approve(db: Db, id: DeviceId): Db {
    if CanApprove(db, id) then db.(devices := db.devices[id := db.devices[id].(status := Approved)]) else db
  }

  /** The row is Approved and no other row already has the empty string in the UNIQUE column. */
  predicate CanRevoke(db: Db, id: DeviceId) {
    && id in db.devices && db.devices[id].status == Approved
    && forall x <- db.devices :: x != id ==> db.devices[x].ipv4 != Blank
  }

  /** The row is Approved, but another row already has the empty string: the UPDATE is an error. */
  predicate RevokeViolates(db: Db, id: DeviceId) {
    && id in db.devices && db.devices[id].status == Approved
    && exists x <- db.devices :: x != id && db.devices[x].ipv4 == Blank
  }

  /** UPDATE devices SET status = -1, ipv4 = '' WHERE device_id = ? AND status = 1 */
  function Revoke(db: Db, id: DeviceId): Db {
    if CanRevoke(db, id)
    then db.(devices := db.devices[id := db.devices[id].(status := Revoked, ipv4 := Blank)])
    else db
  }

  /** DELETE FROM devices WHERE device_id = ? */
  function DeleteRow(db: Db, id: DeviceId): Db {
    db.(devices := db.devices - {id})
  }

  predicate Purgeable(d: Device, cutoff: int) {
    d.lastSeen < cutoff && d.status != Approved
  }

  /** DELETE FROM devices WHERE last_seen < ? AND status != 1 */
  function PurgeRows(db: Db, cutoff: int): Db {
    db.(devices := map id | id in db.devices && !Purgeable(db.devices[id], cutoff) :: db.devices[id])
  }

  // ── Statements on ip_pool ──

  function Free(pool: map<Ip, bool>): set<Ip> {
    set ip | ip in pool && !pool[ip]
  }

  /** SELECT ... WHERE allocated = 0 ORDER BY ipv4 LIMIT 1 */
  ghost function FindFree(db: Db): (r: Option<Ip>)
    ensures r.Some? ==> IsFirst(Free(db.pool), r.value)
    ensures r.None? ==> forall ip <- db.pool :: db.pool[ip]
  {
    if Free(db.pool) == {} then
      assert forall ip <- db.pool :: db.pool[ip] || ip in Free(db.pool);
      None
    else
      FirstExists(Free(db.pool));
      var ip: Ip :| IsFirst(Free(db.pool), ip);
      Some(ip)
  }

  function Allocated(pool: map<Ip, bool>): set<Ip> {
    set ip | ip in pool && pool[ip]
  }

  /** UPDATE ip_pool SET allocated = 1 WHERE ipv4 = ? */
  function MarkAllocated(db: Db, ip: Ip): Db {
    if ip in db.pool then db.(pool := db.pool[ip := true]) else db
  }

  /** INSERT INTO ip_pool (ipv4, allocated) VALUES (?, 1); the error of a duplicate is ignored. */
  function InsertIp(db: Db, ip: Ip): Db {
    if ip in db.pool then db else db.(pool := db.pool[ip := true])
  }

  /** DELETE FROM ip_pool WHERE ipv4 = (SELECT ipv4 FROM devices WHERE device_id = ?) */
  function FreeIpOf(db: Db, id: DeviceId): Db {
    if id in db.devices && db.devices[id].ipv4.Text? then db.(pool := db.pool - {db.devices[id].ipv4.ip}) else db
  }

  /** The address of some device not seen since the cutoff, whatever its status. */
  predicate Stale(db: Db, ip: Ip, cutoff: int) {
    exists id <- db.devices :: db.devices[id].lastSeen < cutoff && db.devices[id].ipv4 == Text(ip)
  }

  /** DELETE FROM ip_pool WHERE ipv4 IN (SELECT ipv4 FROM devices WHERE last_seen < ?) */
  function PurgeIps(db: Db, cutoff: int): Db {
    db.(pool := map ip | ip in db.pool && !Stale(db, ip, cutoff) :: db.pool[ip])
  }

  // ── The network ──

  /** Base address and maximum offset; addresses do not wrap. */
  datatype Config = Config(base: Ip, maxOffset: nat) {
    predicate Valid() {
      base + maxOffset < 0x1_0000_0000
    }

    predicate Holds(ip: Ip) {
      base <= ip <= base + maxOffset
    }
  }

  /** `parse_cidr` on the parsed address and prefix length; a shift by 32, for prefix 0, overflows. */
  function ParsedCidr(address: Ip, prefix: Byte): Result<Config, string>
    requires prefix != 0
  {
    if prefix > 32 then Err("prefix must be <= 32") else Ok(Config(address, Pow2(32 - prefix) - 1))
  }

  // ── What holds of the tables in every reachable state ──

  ghost predicate UniqueColumns(db: Db) {
    forall x, y | x in db.devices && y in db.devices && x != y ::
      db.devices[x].publicKey != db.devices[y].publicKey && db.devices[x].ipv4 != db.devices[y].ipv4
  }

  ghost predicate Consistent(cfg: Config, db: Db) {
    && UniqueColumns(db)
    && (forall id <- db.devices :: db.devices[id].status == Revoked <==> db.devices[id].ipv4 == Blank)
    && (forall id <- db.devices :: db.devices[id].ipv4.Text? ==> cfg.Holds(db.devices[id].ipv4.ip))
    && (forall ip <- db.pool :: cfg.Holds(ip) && db.pool[ip])
  }

  /** Consequences a caller sees: at most one Revoked row, distinct addresses, a bounded pool. */
  lemma ConsistentMeans(cfg: Config, db: Db)
    requires cfg.Valid() && Consistent(cfg, db)
    ensures forall x, y | x in db.devices && y in db.devices ::
              db.devices[x].status == Revoked && db.devices[y].status == Revoked ==> x == y
    ensures forall x, y | x in db.devices && y in db.devices && db.devices[x].ipv4.Text? ::
              db.devices[x].ipv4 == db.devices[y].ipv4 ==> x == y
    ensures |db.pool| <= cfg.maxOffset + 1
  {
    RangeSize(db.pool.Keys, cfg.base, cfg.base + cfg.maxOffset + 1);
  }

  lemma {:induction false} RangeSize(s: set<Ip>, lo: nat, hi: nat)
    requires lo <= hi && forall ip <- s :: lo <= ip < hi
    ensures |s| <= hi - lo
    decreases hi - lo
  {
    if lo == hi {
      assert s == {};
    } else {
      var top := hi - 1;
      var rest := set ip | ip in s && ip != top;
      if top in s {
        assert s == rest + {top};
      } else {
        assert s == rest;
      }
      RangeSize(rest, lo, top);
    }
  }

  lemma InsertDeviceKeeps(cfg: Config, db: Db, id: DeviceId, d: Device)
    requires Consistent(cfg, db) && d.ipv4.Text? && cfg.Holds(d.ipv4.ip) && d.status != Revoked
    ensures Consistent(cfg, InsertDevice(db, id, d))
  {
  }

  lemma HeartbeatKeeps(cfg: Config, db: Db, id: DeviceId, now: int)
    requires Consistent(cfg, db)
    ensures Consistent(cfg, Heartbeat(db, id, now))
  {
  }

  lemma ApproveKeeps(cfg: Config, db: Db, id: DeviceId)
    requires Consistent(cfg, db)
    ensures Consistent(cfg, Approve(db, id))
  {
  }

  lemma RevokeKeeps(cfg: Config, db: Db, id: DeviceId)
    requires Consistent(cfg, db)
    ensures Consistent(cfg, Revoke(db, id))
  {
  }

  /** Taking rows out of either table. */
  lemma RemovalKeeps(cfg: Config, db: Db, less: Db)
    requires Consistent(cfg, db)
    requires forall id <- less.devices :: id in db.devices && less.devices[id] == db.devices[id]
    requires forall ip <- less.pool :: ip in db.pool && less.pool[ip] == db.pool[ip]
    ensures Consistent(cfg, less)
  {
  }

  lemma InsertIpKeeps(cfg: Config, db: Db, ip: Ip)
    requires Consistent(cfg, db) && cfg.Holds(ip)
    ensures Consistent(cfg, InsertIp(db, ip))
  {
  }

  lemma SubmapSize(m: map<DeviceId, Device>, k: map<DeviceId, Device>)
    requires k.Keys <= m.Keys
    ensures |m.Keys - k.Keys| + |k| == |m|
  {
    assert (m.Keys - k.Keys) + k.Keys == m.Keys;
    assert |k.Keys| == |k| && |m.Keys| == |m|;
  }

  lemma PurgeIpsBySet(db: Db, cutoff: int, stale: set<Ip>)
    requires forall ip: Ip :: ip in stale <==> Stale(db, ip, cutoff)
    ensures PurgeIps(db, cutoff) == db.(pool := map ip | ip in db.pool && ip !in stale :: db.pool[ip])
  {
  }

  // ── The database object ──

  class Store {
    var devices: map<DeviceId, Device>
    var pool: map<Ip, bool>

    function View(): Db
      reads this
    {
      Db(devices, pool)
    }

    constructor ()
      ensures View() == EMPTY
    {
      devices, pool := map[], map[];
    }

    /** The row with the key, if there is one; the key is UNIQUE, so there is no second one. */
    method FindDevice(pk: PublicKey) returns (r: Option<DeviceId>)
      requires UniqueColumns(View())
      ensures r == FindByPublicKey(View(), pk)
    {
      r := None;
      var left := devices.Keys;
      while left != {}
        invariant left <= devices.Keys && r == None
        invariant forall id <- devices.Keys - left :: devices[id].publicKey != pk
        decreases left
      {
        var id :| id in left;
        if devices[id].publicKey == pk {
          return Some(id);
        }
        left := left - {id};
      }
    }

    method Insert(id: DeviceId, d: Device) returns (ok: bool)
      modifies this
      ensures View() == InsertDevice(old(View()), id, d) && ok == CanInsert(old(View()), id, d)
    {
      ok := id !in devices && forall x <- devices :: devices[x].publicKey != d.publicKey && devices[x].ipv4 != d.ipv4;
      if ok {
        devices := devices[id := d];
      }
    }

    method Touch(id: DeviceId, now: int) returns (ok: bool)
      modifies this
      ensures View() == Heartbeat(old(View()), id, now) && ok == (id in old(devices))
    {
      ok := id in devices;
      if ok {
        devices := devices[id := devices[id].(lastSeen := now)];
      }
    }

    method ApproveDevice(id: DeviceId) returns (ok: bool)
      modifies this
      ensures View() == Approve(old(View()), id) && ok == CanApprove(old(View()), id)
    {
      ok := id in devices && devices[id].status == Pending;
      if ok {
        devices := devices[id := devices[id].(status := Approved)];
      }
    }

    /** An error when the UNIQUE column refuses; else whether a row was changed. */
    method RevokeDevice(id: DeviceId) returns (r: Result<bool, DbError>)
      modifies this
      ensures View() == Revoke(FreeIpOf(old(View()), id), id)
      ensures r == if RevokeViolates(old(View()), id) then Err(UniqueViolated) else Ok(CanRevoke(old(View()), id))
    {
      if id in devices && devices[id].ipv4.Text? {
        pool := pool - {devices[id].ipv4.ip};
      }
      if id !in devices || devices[id].status != Approved {
        return Ok(false);
      }
      if exists x <- devices :: x != id && devices[x].ipv4 == Blank {
        return Err(UniqueViolated);
      }
      devices := devices[id := devices[id].(status := Revoked, ipv4 := Blank)];
      r := Ok(true);
    }

    method DeleteDevice(id: DeviceId) returns (ok: bool)
      modifies this
      ensures View() == DeleteRow(FreeIpOf(old(View()), id), id) && ok == (id in old(devices))
    {
      if id in devices && devices[id].ipv4.Text? {
        pool := pool - {devices[id].ipv4.ip};
      }
      ok := id in devices;
      devices := devices - {id};
    }

    method PurgeStale(now: int, timeoutSecs: int) returns (count: nat)
      modifies this
      ensures View() == PurgeRows(PurgeIps(old(View()), now - timeoutSecs), now - timeoutSecs)
      ensures count + |devices| == |old(devices)|
    {
      var cutoff := now - timeoutSecs;
      var stale := set id | id in devices && devices[id].lastSeen < cutoff && devices[id].ipv4.Text?
                     :: devices[id].ipv4.ip;
      PurgeIpsBySet(View(), cutoff, stale);
      pool := map ip | ip in pool && ip !in stale :: pool[ip];
      var keep := map id | id in devices && !Purgeable(devices[id], cutoff) :: devices[id];
      SubmapSize(devices, keep);
      count := |devices.Keys - keep.Keys|;
      devices := keep;
    }

    /** `pool_size` */
    method PoolSize() returns (n: nat)
      ensures n == |pool|
    {
      n := |pool|;
    }

    /** `allocated_count`, against the size of the pool. */
    method AllocatedCount() returns (n: nat)
      ensures n == |Allocated(pool)|
      ensures n <= |pool|
      ensures n == |pool| <==> forall ip <- pool :: pool[ip]
    {
      var taken := Allocated(pool);
      assert taken <= pool.Keys;
      var free := pool.Keys - taken;
      assert taken + free == pool.Keys && taken !! free;
      assert |free| == 0 <==> free == {};
      n := |taken|;
    }

    /** The free row that is first in the order of text. */
    method SelectFree() returns (r: Option<Ip>)
      ensures r.Some? <==> FindFree(View()).Some?
      ensures r.Some? ==> IsFirst(Free(pool), r.value)
    {
      var left := Free(pool);
      assert FindFree(View()).Some? ==> FindFree(View()).value in left;
      if left == {} {
        return None;
      }
      var best :| best in left;
      left := left - {best};
      ghost var seen := {best};
      ComesBeforeIsOrder(best, best, best);
      while left != {}
        invariant IsFirst(seen, best) && seen + left == Free(pool) && seen !! left
        decreases left
      {
        var row :| row in left;
        FirstWithMore(seen, row, best);
        left, seen := left - {row}, seen + {row};
        if ComesBefore(row, best) {
          best := row;
        }
      }
      assert seen == Free(pool);
      r := Some(best);
    }

    /** `allocate_ip`: reuse a free row, else take base + COUNT(*); None when the pool is full. */
    method AllocateIp(cfg: Config) returns (r: Option<Ip>)
      requires cfg.Valid()
      modifies this`pool
      ensures FindFree(old(View())).None? ==>
                if |old(pool)| > cfg.maxOffset then r == None && pool == old(pool)
                else r == Some(cfg.base + |old(pool)|) && View() == InsertIp(old(View()), r.value)
      ensures FindFree(old(View())).Some? ==>
                && r.Some? && IsFirst(Free(old(pool)), r.value)
                && View() == MarkAllocated(old(View()), r.value)
    {
      var row := SelectFree();
      if row.Some? {
        pool := pool[row.value := true];
        return row;
      }
      var used := |pool|;
      if used > cfg.maxOffset {
        return None;
      }
      var ip := cfg.base + used;
      if ip !in pool {
        pool := pool[ip := true];
      }
      r := Some(ip);
    }
  }
}
