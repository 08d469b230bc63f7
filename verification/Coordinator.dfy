/**
  The strict IP-limit coordinator (internal/iplimit/coordinator.go): admission, release,
  snapshot and the global sweep, each one atomic step over the lease table.

  Two results over whole runs: the sweep is invisible to every later decision, and a client
  never holds more distinct addresses than its last granted limit.
*/
module Coordinator {
  import opened Sequences
  import opened Wrappers
  import opened LeaseTable
  import opened LeaseListing

  datatype Error =
    | InvalidTtl | InvalidGuid | InvalidIp | InvalidHolder | ClientNotFound | AmbiguousClient | InvalidLimit

  datatype Reason = Unlimited | ExistingSlot | NewSlot | LimitReached

  datatype Decision = Decision(
    allowed: bool, reason: Reason, limit: nat, activeSlots: nat, existingSlot: bool, expiresAt: int)

  /** uuid.Parse, netip.ParseAddr with Unmap, and strings.TrimSpace. */
  datatype Library = Library(
    guid: string -> Option<string>, ip: string -> Option<string>, trim: string -> string)

  const MILLI := 1_000_000

  /** Time.UnixMilli of a time in nanoseconds: the floor. */
  function Millis(ns: int): int {
    ns / MILLI
  }

  function HolderKey(lib: Library, raw: string): Option<string> {
    var v := lib.trim(raw);
    if v == "" || |v| > 128 then None else Some(v)
  }

  // ---------------------------------------------------------------- one admission

  /** upsertHolder: a renewed holder keeps its creation time. */
  function Upsert(t: Table, k: Key, expiresAt: int, now: int): Table {
    t[k := Row(expiresAt, if k in t then t[k].createdAt else now, now)]
  }

  /** What Acquire decides and stores once the client's rows have converged to `slots` addresses. */
  function Decide(kept: Table, slots: nat, limit: nat, k: Key, now: int, expiresAt: int): (Table, Decision) {
    if k.ip in ActiveIps(kept, k.guid, now) then
      (Upsert(kept, k, expiresAt, now), Decision(true, ExistingSlot, limit, slots, true, expiresAt))
    else if slots >= limit then
      (kept, Decision(false, LimitReached, limit, slots, false, 0))
    else
      (Upsert(kept, k, expiresAt, now), Decision(true, NewSlot, limit, slots + 1, false, expiresAt))
  }

  /** The transaction of Acquire, for a client whose LimitIP is `limit`. */
  function Admit(t: Table, limit: nat, k: Key, now: int, expiresAt: int): (Table, Decision) {
    if limit == 0 then
      (map r | r in t && r.guid != k.guid :: t[r], Decision(true, Unlimited, 0, 0, false, 0))
    else
      var (kept, slots) := Converge(PruneClient(t, k.guid, now), k.guid, limit, now);
      Decide(kept, slots, limit, k, now, expiresAt)
  }

  /** The canonical lease key of a request, or the first argument that is refused. */
  function Resolve(lib: Library, guid: string, ip: string, holder: string): Result<Key, Error> {
    if lib.guid(guid).None? then Err(InvalidGuid)
    else if lib.ip(ip).None? then Err(InvalidIp)
    else if HolderKey(lib, holder).None? then Err(InvalidHolder)
    else Ok(Key(lib.guid(guid).value, lib.ip(ip).value, HolderKey(lib, holder).value))
  }

  /** The transaction, from the client lookup on: exactly one record, with a limit that makes sense. */
  function Transact(t: Table, limits: seq<int>, k: Key, now: int, expiresAt: int): (Table, Result<Decision, Error>) {
    if |limits| == 0 then (t, Err(ClientNotFound))
    else if |limits| != 1 then (t, Err(AmbiguousClient))
    else if limits[0] < 0 then (t, Err(InvalidLimit))
    else var (t', d) := Admit(t, limits[0], k, now, expiresAt); (t', Ok(d))
  }

  /** Acquire; `limits` are the LimitIP values of the client records with this guid. */
  function Acquired(lib: Library, ttl: int, t: Table, limits: seq<int>, guid: string, ip: string, holder: string,
                    ns: int)
    : (Table, Result<Decision, Error>)
  {
    if ttl <= 0 then (t, Err(InvalidTtl))
    else match Resolve(lib, guid, ip, holder)
      case Err(e) => (t, Err(e))
      case Ok(k) => Transact(t, limits, k, Millis(ns), Millis(ns + ttl))
  }

  function Released(lib: Library, t: Table, guid: string, ip: string, holder: string): (Table, Result<bool, Error>) {
    match Resolve(lib, guid, ip, holder)
    case Err(e) => (t, Err(e))
    case Ok(k) => (t - {k}, Ok(k in t))
  }

  function Snapshotted(lib: Library, t: Table, guid: string, ns: int): (Table, Result<seq<Holder>, Error>) {
    if lib.guid(guid).None? then (t, Err(InvalidGuid))
    else
      var g := lib.guid(guid).value;
      (PruneClient(t, g, Millis(ns)), Ok(Listed(Unexpired(RowsOf(t, g), Millis(ns)))))
  }

  // ---------------------------------------------------------------- the coordinator object

  class Coordinator {
    const lib: Library
    const ttl: int
    var table: Table

    constructor (lib: Library, ttl: int, table: Table)
      ensures this.lib == lib && this.ttl == ttl && this.table == table
    {
      this.lib, this.ttl, this.table := lib, ttl, table;
    }

    method PruneClientExpired(guid: string, now: int)
      modifies this
      ensures table == PruneClient(old(table), guid, now)
    {
      table := map k | k in table && !(k.guid == guid && table[k].expiresAt <= now) :: table[k];
    }

    method ConvergeClientLimit(guid: string, limit: nat, now: int) returns (slots: nat)
      modifies this
      ensures (table, slots) == Converge(old(table), guid, limit, now)
    {
      var active := Oldest(Ages(table, guid, now));
      if |active| <= limit {
        return |active|;
      }
      var excess := Elems(active[limit..]);
      table := map k | k in table && !(k.guid == guid && k.ip in excess) :: table[k];
      return limit;
    }

    method ActiveIpExists(guid: string, ip: string, now: int) returns (exists_: bool)
      ensures exists_ <==> ip in ActiveIps(table, guid, now)
    {
      var rows := set k | k in table && k.guid == guid && k.ip == ip && table[k].expiresAt > now;
      exists_ := |rows| > 0;
      if exists_ {
        ghost var k :| k in rows;
      } else {
        assert rows == {};
        assert forall k | k in table && k.guid == guid && table[k].expiresAt > now :: k.ip == ip ==> k in rows;
      }
    }

    method UpsertHolder(k: Key, expiresAt: int, updatedAt: int)
      modifies this
      ensures table == Upsert(old(table), k, expiresAt, updatedAt)
    {
      if k in table {
        table := table[k := table[k].(expiresAt := expiresAt, updatedAt := updatedAt)];
      } else {
        table := table[k := Row(expiresAt, updatedAt, updatedAt)];
      }
    }

    method Acquire(limits: seq<int>, clientGuid: string, sourceIp: string, holderKey: string, ns: int)
      returns (r: Result<Decision, Error>)
      modifies this
      ensures (table, r) == Acquired(lib, ttl, old(table), limits, clientGuid, sourceIp, holderKey, ns)
    {
      if ttl <= 0 {
        return Err(InvalidTtl);
      }
      var guid, ip, holder := lib.guid(clientGuid), lib.ip(sourceIp), HolderKey(lib, holderKey);
      if guid.None? {
        return Err(InvalidGuid);
      }
      if ip.None? {
        return Err(InvalidIp);
      }
      if holder.None? {
        return Err(InvalidHolder);
      }
      var now, expiresAt := Millis(ns), Millis(ns + ttl);
      if |limits| == 0 {
        return Err(ClientNotFound);
      }
      if |limits| != 1 {
        return Err(AmbiguousClient);
      }
      var limit := limits[0];
      if limit < 0 {
        return Err(InvalidLimit);
      }
      var k := Key(guid.value, ip.value, holder.value);
      if limit == 0 {
        table := map r | r in table && r.guid != k.guid :: table[r];
        return Ok(Decision(true, Unlimited, 0, 0, false, 0));
      }
      PruneClientExpired(k.guid, now);
      var slots := ConvergeClientLimit(k.guid, limit, now);
      var active := ActiveIpExists(k.guid, k.ip, now);
      if active {
        UpsertHolder(k, expiresAt, now);
        return Ok(Decision(true, ExistingSlot, limit, slots, true, expiresAt));
      }
      if slots >= limit {
        return Ok(Decision(false, LimitReached, limit, slots, false, 0));
      }
      UpsertHolder(k, expiresAt, now);
      return Ok(Decision(true, NewSlot, limit, slots + 1, false, expiresAt));
    }

    method Release(clientGuid: string, sourceIp: string, holderKey: string) returns (r: Result<bool, Error>)
      modifies this
      ensures (table, r) == Released(lib, old(table), clientGuid, sourceIp, holderKey)
    {
      var guid, ip, holder := lib.guid(clientGuid), lib.ip(sourceIp), HolderKey(lib, holderKey);
      if guid.None? {
        return Err(InvalidGuid);
      }
      if ip.None? {
        return Err(InvalidIp);
      }
      if holder.None? {
        return Err(InvalidHolder);
      }
      var k := Key(guid.value, ip.value, holder.value);
      r := Ok(k in table);
      table := table - {k};
    }

    method Snapshot(clientGuid: string, ns: int) returns (r: Result<seq<Holder>, Error>)
      modifies this
      ensures (table, r) == Snapshotted(lib, old(table), clientGuid, ns)
    {
      var guid := lib.guid(clientGuid);
      if guid.None? {
        return Err(InvalidGuid);
      }
      var now := Millis(ns);
      PruneClientExpired(guid.value, now);
      var rows := map k | k in table && k.guid == guid.value && table[k].expiresAt > now :: table[k];
      assert rows == Unexpired(RowsOf(old(table), guid.value), now);
      var listed := ListRows(rows);
      r := Ok(listed);
    }

    method PruneExpired(ns: int) returns (rows: nat)
      modifies this
      ensures table == Unexpired(old(table), Millis(ns)) && rows == |old(table)| - |table|
    {
      var expired := set k | k in table && table[k].expiresAt <= Millis(ns);
      rows := |expired|;
      assert table.Keys == (table - expired).Keys + expired;
      table := table - expired;
      assert table == Unexpired(old(table), Millis(ns));
    }
  }

  // ---------------------------------------------------------------- what a decision means

  lemma PrunedRowsAreLive(t: Table, guid: string, now: int)
    ensures var p := PruneClient(t, guid, now);
      && StoredIps(p, guid) == ActiveIps(p, guid, now) == ActiveIps(t, guid, now)
      && Ages(p, guid, now) == Ages(t, guid, now)
  {
    var p := PruneClient(t, guid, now);
    assert ActiveIps(p, guid, now) == ActiveIps(t, guid, now) by {
      forall ip | ip in ActiveIps(t, guid, now) ensures ip in ActiveIps(p, guid, now) {
        var k :| k in t && k.guid == guid && t[k].expiresAt > now && k.ip == ip;
        assert k in p;
      }
    }
    forall ip | ip in Ages(t, guid, now) ensures Ages(p, guid, now)[ip] == Ages(t, guid, now)[ip] {
      assert Creations(p, guid, ip, now) == Creations(t, guid, ip, now) by {
        forall c | c in Creations(t, guid, ip, now) ensures c in Creations(p, guid, ip, now) {
          var k :| k in t && k.guid == guid && k.ip == ip && t[k].expiresAt > now && Stamp(t[k].createdAt) == c;
          assert k in p;
        }
      }
    }
  }

  lemma ConvergeShrinks(t: Table, guid: string, limit: nat, now: int)
    ensures var kept := Converge(t, guid, limit, now).0;
      && (forall k | k in kept :: k in t && kept[k] == t[k])
      && (forall k | k in t && k.guid != guid :: k in kept)
  {
  }

  lemma LiveRowsAreActive(t: Table, guid: string, now: int)
    requires forall k | k in t && k.guid == guid :: t[k].expiresAt > now
    ensures StoredIps(t, guid) == ActiveIps(t, guid, now)
    ensures |StoredIps(t, guid)| == |Oldest(Ages(t, guid, now))|
  {
    var ages := Ages(t, guid, now);
    assert |ages| == |ages.Keys|;
  }

  lemma ConvergedRowsAreLive(t: Table, guid: string, limit: nat, now: int, kept: Table, slots: nat)
    requires forall k | k in t && k.guid == guid :: t[k].expiresAt > now
    requires (kept, slots) == Converge(t, guid, limit, now)
    ensures StoredIps(kept, guid) == ActiveIps(kept, guid, now) && |StoredIps(kept, guid)| == slots <= limit
  {
    ConvergeShrinks(t, guid, limit, now);
    ConvergedAges(t, guid, limit, now);
    LiveRowsAreActive(kept, guid, now);
  }

  lemma UpsertIps(t: Table, k: Key, expiresAt: int, now: int)
    ensures StoredIps(Upsert(t, k, expiresAt, now), k.guid) == StoredIps(t, k.guid) + {k.ip}
  {
    var t' := Upsert(t, k, expiresAt, now);
    forall ip | ip in StoredIps(t, k.guid) ensures ip in StoredIps(t', k.guid) {
      var r :| r in t && r.guid == k.guid && r.ip == ip;
      assert r in t';
    }
    assert k in t';
  }

  lemma DecidedSlots(kept: Table, slots: nat, limit: nat, k: Key, now: int, expiresAt: int)
    requires StoredIps(kept, k.guid) == ActiveIps(kept, k.guid, now) && |StoredIps(kept, k.guid)| == slots <= limit
    ensures var (t', d) := Decide(kept, slots, limit, k, now, expiresAt);
      && |StoredIps(t', k.guid)| == d.activeSlots <= limit == d.limit
      && (d.allowed ==> k in t' && t'[k].expiresAt == expiresAt)
      && (!d.allowed ==> d.activeSlots == limit && k.ip !in StoredIps(t', k.guid))
  {
    UpsertIps(kept, k, expiresAt, now);
    assert k.ip in StoredIps(kept, k.guid) ==> StoredIps(kept, k.guid) + {k.ip} == StoredIps(kept, k.guid);
  }

  /** A decision reports exactly the addresses stored after it, and never more than the limit. */
  lemma SlotsAreStored(t: Table, limit: nat, k: Key, now: int, expiresAt: int)
    ensures var (t', d) := Admit(t, limit, k, now, expiresAt);
      && |StoredIps(t', k.guid)| == d.activeSlots <= limit == d.limit
      && (limit == 0 ==> RowsOf(t', k.guid) == map[])
      && (d.allowed && limit > 0 ==> k in t' && t'[k].expiresAt == expiresAt)
      && (!d.allowed ==> d.activeSlots == limit && k.ip !in StoredIps(t', k.guid))
  {
    if limit > 0 {
      var p := PruneClient(t, k.guid, now);
      var (kept, slots) := Converge(p, k.guid, limit, now);
      ConvergedRowsAreLive(p, k.guid, limit, now, kept, slots);
      DecidedSlots(kept, slots, limit, k, now, expiresAt);
    } else {
      assert StoredIps(Admit(t, limit, k, now, expiresAt).0, k.guid) == {};
    }
  }

  lemma SurvivorIsActive(t: Table, guid: string, limit: nat, now: int, ip: string)
    ensures ip in ActiveIps(Converge(t, guid, limit, now).0, guid, now) <==> Survives(t, guid, limit, now, ip)
  {
    var kept := Converge(t, guid, limit, now).0;
    ConvergeShrinks(t, guid, limit, now);
    if ip in Ages(t, guid, now) {
      var k :| k in t && k.guid == guid && t[k].expiresAt > now && k.ip == ip;
      ConvergeKeepsOldest(t, guid, limit, now, k);
      forall r | r in kept && r.guid == guid && r.ip == ip ensures Survives(t, guid, limit, now, ip) {
        ConvergeKeepsOldest(t, guid, limit, now, r);
      }
    }
  }

  /** Admission is refused exactly when the limit is spent on slots that all outrank this address. */
  lemma RefusedIffOutranked(t: Table, limit: nat, k: Key, now: int, expiresAt: int)
    ensures Admit(t, limit, k, now, expiresAt).1.allowed <==>
      || limit == 0
      || |Ages(t, k.guid, now)| < limit
      || Survives(t, k.guid, limit, now, k.ip)
  {
    if limit > 0 {
      var p := PruneClient(t, k.guid, now);
      PrunedRowsAreLive(t, k.guid, now);
      SurvivorIsActive(p, k.guid, limit, now, k.ip);
      assert Survives(p, k.guid, limit, now, k.ip) <==> Survives(t, k.guid, limit, now, k.ip);
      ConvergedAges(p, k.guid, limit, now);
    }
  }

  lemma DecideKeepsOthers(kept: Table, slots: nat, limit: nat, k: Key, now: int, expiresAt: int, r: Key)
    requires r.guid != k.guid
    ensures var t' := Decide(kept, slots, limit, k, now, expiresAt).0;
      (r in t' <==> r in kept) && (r in kept ==> t'[r] == kept[r])
  {
  }

  lemma OtherRowKept(t: Table, limit: nat, k: Key, now: int, expiresAt: int, r: Key)
    requires r.guid != k.guid
    ensures var t' := Admit(t, limit, k, now, expiresAt).0;
      (r in t' <==> r in t) && (r in t ==> t'[r] == t[r])
  {
    if limit > 0 {
      var p := PruneClient(t, k.guid, now);
      var (kept, slots) := Converge(p, k.guid, limit, now);
      ConvergeShrinks(p, k.guid, limit, now);
      DecideKeepsOthers(kept, slots, limit, k, now, expiresAt, r);
      assert r in p <==> r in t;
    }
  }

  /** No admission of one client changes another client's rows. */
  lemma OthersKeepRows(t: Table, limit: nat, k: Key, now: int, expiresAt: int, other: string)
    requires other != k.guid
    ensures RowsOf(Admit(t, limit, k, now, expiresAt).0, other) == RowsOf(t, other)
  {
    var t' := Admit(t, limit, k, now, expiresAt).0;
    forall r: Key | r.guid == other ensures (r in t' <==> r in t) && (r in t ==> t'[r] == t[r]) {
      OtherRowKept(t, limit, k, now, expiresAt, r);
    }
    SameLookupsSameRows(t, t', other);
  }

  lemma SameLookupsSameRows(t: Table, t': Table, guid: string)
    requires forall r: Key | r.guid == guid :: (r in t' <==> r in t) && (r in t ==> t'[r] == t[r])
    ensures RowsOf(t', guid) == RowsOf(t, guid)
  {
  }
}
