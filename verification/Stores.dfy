/** Finding records, the meaning of an upsert in each backend, and the two stores themselves. */
module Stores {
  import opened Core
  import opened Delimited

  /** A finding as persisted, with the number of consecutive scans that did not report it. */
  datatype Record = Record(f: Finding, streak: nat)

  datatype Key = Key(moduleId: string, fingerprint: string)

  function KeyOf(r: Record): Key {
    Key(r.f.moduleId, r.f.fingerprint)
  }

  type Table = map<Key, Record>

  function Lookup(rows: Table, k: Key): Option<Record> {
    if k in rows then Some(rows[k]) else None
  }

  datatype Backend = Memory | Sqlite

  /** The columns the conflict clause overwrites come from `r`; id, target, check and first_seen stay. */
  function Merge(row: Record, r: Record): Record {
    Record(
      row.f.(title := r.f.title, severity := r.f.severity, status := r.f.status,
             remediation := r.f.remediation, evidence := r.f.evidence, groupId := r.f.groupId,
             lastSeen := r.f.lastSeen, resolvedAt := r.f.resolvedAt),
      r.streak)
  }

  /** Inserting under an id that another row holds violates the primary key. */
  predicate Refuses(b: Backend, rows: Table, r: Record) {
    b == Sqlite && KeyOf(r) !in rows && exists k :: k in rows && rows[k].f.id == r.f.id
  }

  function Put(b: Backend, rows: Table, r: Record): Table {
    if Refuses(b, rows, r) then rows
    else if b == Sqlite && KeyOf(r) in rows then rows[KeyOf(r) := Merge(rows[KeyOf(r)], r)]
    else rows[KeyOf(r) := r]
  }

  /** What a listing of one module and target returns: every such row once, in any order. */
  ghost predicate IsListing(listing: seq<Record>, rows: Table, moduleId: string, target: string) {
    && (forall r :: r in listing ==>
          KeyOf(r) in rows && rows[KeyOf(r)] == r && r.f.moduleId == moduleId && r.f.target == target)
    && (forall k :: k in rows && k.moduleId == moduleId && rows[k].f.target == target ==> rows[k] in listing)
    && (forall i, j :: 0 <= i < j < |listing| ==> listing[i].f.fingerprint != listing[j].f.fingerprint)
  }

  /** Every row sits under its own key. */
  ghost predicate Keyed(rows: Table) {
    forall k :: k in rows ==> KeyOf(rows[k]) == k
  }

  const NUL: char := '\0'

  /** The in-memory store's key: module and fingerprint joined by a NUL. */
  function MemKey(k: Key): string {
    Join(k.moduleId, NUL, k.fingerprint)
  }

  /** No stored record has this joined key, except under this very key. */
  ghost predicate NoClash(rows: Table, k: Key) {
    forall k' :: k' in rows && MemKey(k') == MemKey(k) ==> k' == k
  }

  /** Without a NUL in module names nothing ever clashes. */
  lemma PlainModulesDoNotClash(rows: Table, k: Key)
    requires '\0' !in k.moduleId && forall k' :: k' in rows ==> '\0' !in k'.moduleId
    ensures NoClash(rows, k)
  {
    forall k' | k' in rows && MemKey(k') == MemKey(k) ensures k' == k {
      JoinInjective(k'.moduleId, k.moduleId, NUL, k'.fingerprint, k.fingerprint);
    }
  }

  class MemStore {
    var recs: map<string, Record>
    ghost var rows: Table

    ghost predicate Valid()
      reads this
    {
      && Keyed(rows)
      && (forall k :: k in rows ==> MemKey(k) in recs && recs[MemKey(k)] == rows[k])
      && (forall s :: s in recs ==> KeyOf(recs[s]) in rows && s == MemKey(KeyOf(recs[s])))
    }

    ghost predicate PlainModules()
      reads this
    {
      forall k :: k in rows ==> NUL !in k.moduleId
    }

    constructor ()
      ensures Valid() && rows == map[]
    {
      recs := map[];
      rows := map[];
    }

    /** The record replaces whatever is stored under its joined key: its predecessor, or a record it clashes with. */
    method Upsert(r: Record)
      requires Valid()
      modifies this
      ensures Valid()
      ensures rows == (map k | k in old(rows) && MemKey(k) != MemKey(KeyOf(r)) :: old(rows)[k])[KeyOf(r) := r]
      ensures NoClash(old(rows), KeyOf(r)) ==> rows == Put(Memory, old(rows), r)
    {
      hide MemKey;
      var s := MemKey(KeyOf(r));
      rows := (map k | k in rows && MemKey(k) != s :: rows[k])[KeyOf(r) := r];
      recs := recs[s := r];
    }

    /** The record stored under the joined key, whoever's it is. */
    method Get(moduleId: string, fingerprint: string) returns (found: Option<Record>)
      requires Valid()
      ensures found.Some? <==> exists k :: k in rows && MemKey(k) == MemKey(Key(moduleId, fingerprint))
      ensures found.Some? ==>
        found == Lookup(rows, KeyOf(found.value)) && MemKey(KeyOf(found.value)) == MemKey(Key(moduleId, fingerprint))
      ensures NoClash(rows, Key(moduleId, fingerprint)) ==> found == Lookup(rows, Key(moduleId, fingerprint))
    {
      hide MemKey;
      var s := MemKey(Key(moduleId, fingerprint));
      found := if s in recs then Some(recs[s]) else None;
    }

    method ListByTarget(moduleId: string, target: string) returns (listing: seq<Record>)
      requires Valid()
      ensures IsListing(listing, rows, moduleId, target)
    {
      hide MemKey;
      listing := [];
      var todo := recs.Keys;
      while todo != {}
        invariant todo <= recs.Keys
        invariant forall r :: r in listing ==>
          KeyOf(r) in rows && rows[KeyOf(r)] == r && r.f.moduleId == moduleId && r.f.target == target
        invariant forall r :: r in listing ==> MemKey(KeyOf(r)) !in todo
        invariant forall k :: k in rows && k.moduleId == moduleId && rows[k].f.target == target ==>
          MemKey(k) in todo || rows[k] in listing
        invariant forall i, j :: 0 <= i < j < |listing| ==> listing[i].f.fingerprint != listing[j].f.fingerprint
        decreases todo
      {
        var s :| s in todo;
        var r := recs[s];
        todo := todo - {s};
        if r.f.moduleId == moduleId && r.f.target == target {
          assert forall q :: q in listing ==> KeyOf(q) != KeyOf(r);
          listing := listing + [r];
        }
      }
    }
  }

  class SqliteStore {
    var rows: Table

    ghost predicate Valid()
      reads this
    {
      Keyed(rows)
    }

    constructor ()
      ensures Valid() && rows == map[]
    {
      rows := map[];
    }

    /** One statement: it takes effect as a whole or reports an error and changes nothing. */
    method Upsert(r: Record) returns (ok: bool)
      requires Valid()
      modifies this
      ensures Valid()
      ensures ok ==> !Refuses(Sqlite, old(rows), r) && rows == Put(Sqlite, old(rows), r)
      ensures !ok ==> rows == old(rows)
    {
      var k := KeyOf(r);
      var fails := *;
      if fails || (k !in rows && exists k' :: k' in rows && rows[k'].f.id == r.f.id) {
        return false;
      }
      rows := if k in rows then rows[k := Merge(rows[k], r)] else rows[k := r];
      ok := true;
    }

    method Get(moduleId: string, fingerprint: string) returns (ok: bool, found: Option<Record>)
      ensures ok ==> found == Lookup(rows, Key(moduleId, fingerprint))
    {
      var fails := *;
      ok := !fails;
      found := if Key(moduleId, fingerprint) in rows then Some(rows[Key(moduleId, fingerprint)]) else None;
    }

    method ListByTarget(moduleId: string, target: string) returns (ok: bool, listing: seq<Record>)
      requires Valid()
      ensures ok ==> IsListing(listing, rows, moduleId, target)
    {
      var fails := *;
      if fails {
        return false, [];
      }
      listing := [];
      var todo := rows.Keys;
      while todo != {}
        invariant todo <= rows.Keys
        invariant forall r :: r in listing ==>
          KeyOf(r) in rows && rows[KeyOf(r)] == r && r.f.moduleId == moduleId && r.f.target == target
        invariant forall r :: r in listing ==> KeyOf(r) !in todo
        invariant forall k :: k in rows && k.moduleId == moduleId && rows[k].f.target == target ==>
          k in todo || rows[k] in listing
        invariant forall i, j :: 0 <= i < j < |listing| ==> listing[i].f.fingerprint != listing[j].f.fingerprint
        decreases todo
      {
        var k :| k in todo;
        todo := todo - {k};
        if k.moduleId == moduleId && rows[k].f.target == target {
          assert forall q :: q in listing ==> KeyOf(q) != k;
          listing := listing + [rows[k]];
        }
      }
      ok := true;
    }
  }

  /** The store interface value held by the engine: one of the two implementations. */
  datatype Store = Mem(mem: MemStore) | Sql(db: SqliteStore) {
    function Kind(): Backend {
      if Mem? then Memory else Sqlite
    }

    ghost function Footprint(): object {
      match this
      case Mem(m) => m
      case Sql(d) => d
    }

    ghost predicate Valid()
      reads Footprint()
    {
      match this
      case Mem(m) => m.Valid() && m.PlainModules()
      case Sql(d) => d.Valid()
    }

    ghost function Rows(): Table
      reads Footprint()
    {
      match this
      case Mem(m) => m.rows
      case Sql(d) => d.rows
    }

    /** The in-memory store keys by module and fingerprint joined with NUL, so it needs modules without NUL. */
    predicate ModuleOk(moduleId: string) {
      Mem? ==> NUL !in moduleId
    }

    method Upsert(r: Record) returns (ok: bool)
      requires Valid() && ModuleOk(r.f.moduleId)
      modifies Footprint()
      ensures Valid()
      ensures ok ==> !Refuses(Kind(), old(Rows()), r) && Rows() == Put(Kind(), old(Rows()), r)
      ensures !ok ==> Sql? && Rows() == old(Rows())
    {
      match this
      case Mem(m) =>
        PlainModulesDoNotClash(m.rows, KeyOf(r));
        m.Upsert(r);
        ok := true;
      case Sql(d) =>
        ok := d.Upsert(r);
    }

    method Get(moduleId: string, fingerprint: string) returns (ok: bool, found: Option<Record>)
      requires Valid() && ModuleOk(moduleId)
      ensures ok ==> found == Lookup(Rows(), Key(moduleId, fingerprint))
      ensures !ok ==> Sql?
    {
      match this
      case Mem(m) =>
        PlainModulesDoNotClash(m.rows, Key(moduleId, fingerprint));
        found := m.Get(moduleId, fingerprint);
        ok := true;
      case Sql(d) =>
        ok, found := d.Get(moduleId, fingerprint);
    }

    method ListByTarget(moduleId: string, target: string) returns (ok: bool, listing: seq<Record>)
      requires Valid()
      ensures ok ==> IsListing(listing, Rows(), moduleId, target)
      ensures !ok ==> Sql?
    {
      match this
      case Mem(m) =>
        listing := m.ListByTarget(moduleId, target);
        ok := true;
      case Sql(d) =>
        ok, listing := d.ListByTarget(moduleId, target);
    }
  }
}
