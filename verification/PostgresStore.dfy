/** The job store over a table of rows: each SQL statement as an operation on the rows,
    keyed by the primary key. */
module PostgresStore {
  import opened Jobs
  import opened Matches
  import opened OrderedDict
  import opened Sorting

  type Table = map<string, Job>

  /** `ids` lists the rows as `ORDER BY created DESC` may list them: newest first, rows with
      equal stamps in any order. */
  ghost predicate NewestFirst(t: Table, ids: seq<string>) {
    && Distinct(ids)
    && (forall id :: id in ids <==> id in t)
    && (forall i, j :: 0 <= i < j < |ids| ==> t[ids[i]].created >= t[ids[j]].created)
  }

  /** `DELETE ... WHERE id IN (SELECT id ... ORDER BY created DESC OFFSET n)` for one listing. */
  function DeleteBeyond(t: Table, ids: seq<string>, n: nat): Table {
    t - (if |ids| <= n then {} else set id | id in ids[n..])
  }

  /** `DELETE ... WHERE now - updated > ttl` */
  function Swept(t: Table, now: real, ttl: real): Table {
    map id | id in t && !Expired(t[id], now, ttl) :: t[id]
  }

  function Created(t: Table, job: Job, now: real, ttl: real, maxJobs: nat, orderBy: Table -> seq<string>): Table {
    var inserted := Swept(t, now, ttl)[job.id := job];
    DeleteBeyond(inserted, orderBy(inserted), maxJobs)
  }

  function Read(t: Table, id: string, now: real, ttl: real): Option<Job> {
    if id in t && !Expired(t[id], now, ttl) then Some(t[id]) else None
  }

  function AfterRead(t: Table, id: string, now: real, ttl: real): Table {
    if id in t && Expired(t[id], now, ttl) then t - {id} else t
  }

  /** `UPDATE`; without any field nothing is sent. */
  function Updated(t: Table, id: string, fields: Fields, now: real): Table {
    if fields.Empty() || id !in t then t else t[id := fields.ApplyTo(t[id]).(updated := now)]
  }

  /** As many of the rows as allowed, none of them older than one that is gone. */
  ghost predicate Newest(all: Table, n: nat, after: Table) {
    && |after| == (if |all| < n then |all| else n)
    && (forall id :: id in after ==> id in all && after[id] == all[id])
    && (forall gone :: gone in all && gone !in after ==> NoneOlder(after, all[gone].created))
  }

  ghost predicate NoneOlder(t: Table, created: real) {
    forall id :: id in t ==> t[id].created >= created
  }

  /** What a create leaves: the newest of the unexpired rows and the new one. */
  ghost predicate KeepsNewest(before: Table, rec: Job, now: real, ttl: real, maxJobs: nat, after: Table) {
    Newest((map k | k in before && before[k].updated + ttl >= now :: before[k])[rec.id := rec], maxJobs, after)
  }

  lemma ListedOnce(t: Table, ids: seq<string>, n: nat, id: string)
    requires NewestFirst(t, ids) && n <= |ids|
    ensures id in DeleteBeyond(t, ids, n) <==> id in ids[..n]
  {
    assert ids == ids[..n] + ids[n..];
    assert !(id in ids[..n] && id in ids[n..]);
  }

  lemma RowsLeft(t: Table, ids: seq<string>, n: nat)
    requires NewestFirst(t, ids)
    ensures |ids| == |t|
    ensures |DeleteBeyond(t, ids, n)| == if |ids| < n then |ids| else n
  {
    DistinctSize(ids);
    assert Elements(ids) == t.Keys;
    if n < |ids| {
      DistinctSize(ids[..n]);
      hide NewestFirst, Distinct, DeleteBeyond;
      forall id ensures id in DeleteBeyond(t, ids, n) <==> id in ids[..n] {
        ListedOnce(t, ids, n, id);
      }
      assert DeleteBeyond(t, ids, n).Keys == Elements(ids[..n]);
    }
  }

  lemma NewerIsLeft(t: Table, ids: seq<string>, n: nat, kept: string, gone: string)
    requires NewestFirst(t, ids) && kept in DeleteBeyond(t, ids, n) && gone in t && gone !in DeleteBeyond(t, ids, n)
    ensures DeleteBeyond(t, ids, n)[kept].created >= t[gone].created
  {
    if n < |ids| {
      ListedOnce(t, ids, n, kept);
      var i :| 0 <= i < n && ids[..n][i] == kept;
      assert ids[i] == kept;
      var j :| 0 <= j < |ids| - n && ids[n..][j] == gone;
      assert ids[n + j] == gone;
    }
  }

  lemma NewerAreLeft(t: Table, ids: seq<string>, n: nat, gone: string)
    requires NewestFirst(t, ids) && gone in t && gone !in DeleteBeyond(t, ids, n)
    ensures NoneOlder(DeleteBeyond(t, ids, n), t[gone].created)
  {
    hide NewestFirst, DeleteBeyond;
    forall kept | kept in DeleteBeyond(t, ids, n) ensures DeleteBeyond(t, ids, n)[kept].created >= t[gone].created {
      NewerIsLeft(t, ids, n, kept, gone);
    }
  }

  lemma NewestAreLeft(t: Table, ids: seq<string>, n: nat)
    requires NewestFirst(t, ids)
    ensures Newest(t, n, DeleteBeyond(t, ids, n))
  {
    RowsLeft(t, ids, n);
    OnlyDeletes(t, ids, n);
    hide NewestFirst, DeleteBeyond, NoneOlder;
    forall gone | gone in t && gone !in DeleteBeyond(t, ids, n) ensures NoneOlder(DeleteBeyond(t, ids, n), t[gone].created) {
      NewerAreLeft(t, ids, n, gone);
    }
  }

  lemma OnlyDeletes(t: Table, ids: seq<string>, n: nat)
    ensures forall id :: id in DeleteBeyond(t, ids, n) ==> id in t && DeleteBeyond(t, ids, n)[id] == t[id]
  {}

  lemma CreateKeepsNewest(t: Table, rec: Job, now: real, ttl: real, maxJobs: nat, orderBy: Table -> seq<string>)
    requires var all := Swept(t, now, ttl)[rec.id := rec]; NewestFirst(all, orderBy(all))
    ensures KeepsNewest(t, rec, now, ttl, maxJobs, Created(t, rec, now, ttl, maxJobs, orderBy))
  {
    hide Newest, NewestFirst, DeleteBeyond;
    var all := Swept(t, now, ttl)[rec.id := rec];
    assert Swept(t, now, ttl) == map k | k in t && t[k].updated + ttl >= now :: t[k];
    NewestAreLeft(all, orderBy(all), maxJobs);
  }

  class PostgresJobStore {
    const maxJobs: nat
    const ttl: real
    /** How the database happens to list rows, ties included. */
    const orderBy: Table -> seq<string>
    var table: Table

    constructor (maxJobs: nat, ttl: real, orderBy: Table -> seq<string>)
      ensures table == map[] && this.maxJobs == maxJobs && this.ttl == ttl && this.orderBy == orderBy
    {
      this.maxJobs, this.ttl, this.orderBy := maxJobs, ttl, orderBy;
      table := map[];
    }

    method Create(id: string, owner: Option<string>, created: real, updated: real, now: real) returns (rec: Job)
      requires id !in table
      modifies this
      ensures rec == NewJob(id, owner, created, updated)
      ensures rec.id == id && rec.owner == owner && rec.created == created && rec.updated == updated
      ensures rec.status == Queued && rec.result == None && rec.error == None
      ensures table == Created(old(table), rec, now, ttl, maxJobs, orderBy)
      ensures (forall t :: NewestFirst(t, orderBy(t))) ==> KeepsNewest(old(table), rec, now, ttl, maxJobs, table)
    {
      rec := NewJob(id, owner, created, updated);
      var _ := Sweep(now);
      table := table[id := rec];
      if forall t :: NewestFirst(t, orderBy(t)) {
        CreateKeepsNewest(old(table), rec, now, ttl, maxJobs, orderBy);
      }
      hide NewestFirst, KeepsNewest;
      table := DeleteBeyond(table, orderBy(table), maxJobs);
    }

    method Get(id: string, now: real) returns (r: Option<Job>)
      modifies this
      ensures r == Read(old(table), id, now, ttl)
      ensures table == AfterRead(old(table), id, now, ttl)
      ensures r == if id in old(table) && old(table)[id].updated + ttl >= now then Some(old(table)[id]) else None
      ensures table == if r.Some? then old(table) else old(table) - {id}
    {
      if id !in table {
        return None;
      }
      var rec := table[id];
      if now - rec.updated > ttl {
        table := table - {id};
        return None;
      }
      return Some(rec);
    }

    method Update(id: string, fields: Fields, now: real)
      modifies this
      ensures table == Updated(old(table), id, fields, now)
      ensures table.Keys == old(table).Keys
      ensures forall k :: k in table ==>
                if k == id && !(fields.status.None? && fields.result.None? && fields.error.None?) then
                  Stamped(old(table)[k], fields, now, table[k])
                else table[k] == old(table)[k]
    {
      if fields.Empty() {
        return;
      }
      if id in table {
        table := table[id := fields.ApplyTo(table[id]).(updated := now)];
      }
    }

    /** Answers the statement's row count. */
    method Sweep(now: real) returns (removed: nat)
      modifies this
      ensures table == Swept(old(table), now, ttl)
      ensures table == map k | k in old(table) && old(table)[k].updated + ttl >= now :: old(table)[k]
      ensures removed == |old(table)| - |table|
    {
      var before := |table|;
      var kept := Swept(table, now, ttl);
      assert kept.Keys <= table.Keys;
      assert |kept.Keys| == |table.Keys| - |table.Keys - kept.Keys|;
      table := kept;
      return before - |table|;
    }
  }
}
