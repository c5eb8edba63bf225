/**
 The `task_leases` row of one task and the SQL statements that change it.

 Strings are compared by the server, with the collation of the column. The
 schema names a character set and no collation, so the collation is a
 parameter: `coll` maps a string to its collation key, and two strings are
 equal to the server when their keys are. Go compares the same strings byte
 for byte.
 */
module Leases {
  import opened Wrappers

  type Collation = string -> string

  datatype Row = Row(owner: string, epoch: int, expireAt: int, renewedAt: int)

  /** The server takes the owner column for the empty string. */
  predicate Vacant(coll: Collation, owner: string) {
    coll(owner) == coll("")
  }

  /** A nanosecond time to live as the microseconds of an SQL interval. */
  function TtlMicros(ttlNanos: int): int {
    if ttlNanos <= 0 then 1 else ttlNanos / 1000
  }

  /**
   What the acquire upsert leaves, as one simultaneous update. A lapsed lease
   goes to the caller, at the next epoch unless the caller already held it.
   */
  function Upserted(coll: Collation, row: Option<Row>, worker: string, ttl: int, now: int): Row {
    match row
    case None => Row(worker, 1, now + ttl, now)
    case Some(r) =>
      if now < r.expireAt then r
      else
        var kept := !Vacant(coll, r.owner) && coll(r.owner) == coll(worker);
        Row(worker, if kept then r.epoch else r.epoch + 1, now + ttl, if ttl <= 0 then now else r.renewedAt)
  }

  predicate Matches(coll: Collation, row: Option<Row>, worker: string, epoch: int) {
    row.Some? && coll(row.value.owner) == coll(worker) && row.value.epoch == epoch
  }

  function Renewed(coll: Collation, row: Option<Row>, worker: string, epoch: int, ttl: int, now: int): Option<Row> {
    if Matches(coll, row, worker, epoch) then Some(row.value.(expireAt := now + ttl, renewedAt := now)) else row
  }

  function Freed(coll: Collation, row: Option<Row>, worker: string, epoch: int, now: int): Option<Row> {
    if Matches(coll, row, worker, epoch) then Some(row.value.(owner := "", expireAt := now, renewedAt := now)) else row
  }

  /** The release inside a yield names the epoch only. */
  function FreedByEpoch(row: Option<Row>, epoch: int, now: int): Option<Row> {
    if row.Some? && row.value.epoch == epoch then Some(row.value.(owner := "", expireAt := now)) else row
  }

  /** A time to live is rounded down to microseconds; one that is not positive becomes one microsecond. */
  lemma TtlIsMicros(ttlNanos: int)
    ensures ttlNanos <= 0 ==> TtlMicros(ttlNanos) == 1
    ensures ttlNanos > 0 ==> 1000 * TtlMicros(ttlNanos) <= ttlNanos < 1000 * (TtlMicros(ttlNanos) + 1)
  {
  }

  /**
   What an acquire promises: a first lease is the caller's at epoch 1; a live
   lease stays as it is; a lapsed one becomes the caller's, from now on, at the
   next epoch exactly when it was nobody's or another's.
   */
  ghost predicate Acquired(coll: Collation, was: Option<Row>, row: Option<Row>, worker: string, ttl: int, now: int) {
    && row.Some?
    && (was.None? ==> row.value == Row(worker, 1, now + ttl, now))
    && (was.Some? && now < was.value.expireAt ==> row == was)
    && (was.Some? && was.value.expireAt <= now ==>
          && row.value.owner == worker && row.value.expireAt == now + ttl
          && (row.value.epoch == was.value.epoch || row.value.epoch == was.value.epoch + 1)
          && (row.value.epoch == was.value.epoch + 1 <==>
                coll(was.value.owner) == coll("") || coll(was.value.owner) != coll(worker)))
  }

  lemma UpsertedIs(coll: Collation, was: Option<Row>, worker: string, ttl: int, now: int)
    ensures Acquired(coll, was, Some(Upserted(coll, was, worker, ttl, now)), worker, ttl, now)
  {
  }

  /** The shared row, changed one statement at a time. */
  class LeaseTable {
    var row: Option<Row>

    /** The assignments run left to right, each on the columns the earlier ones left. */
    method AcquireUpsert(coll: Collation, worker: string, ttlNanos: int, now: int)
      modifies this
      ensures row == Some(Upserted(coll, old(row), worker, TtlMicros(ttlNanos), now))
      ensures Acquired(coll, old(row), row, worker, TtlMicros(ttlNanos), now)
    {
      UpsertedIs(coll, row, worker, TtlMicros(ttlNanos), now);
      var ttl := TtlMicros(ttlNanos);
      if row.None? {
        row := Some(Row(worker, 1, now + ttl, now));
        return;
      }
      var r := row.value;
      if r.expireAt <= now && (coll(r.owner) == coll("") || coll(r.owner) != coll(worker)) {
        r := r.(epoch := r.epoch + 1);
      }
      if r.expireAt <= now {
        r := r.(owner := worker);
      }
      if r.expireAt <= now {
        r := r.(expireAt := now + ttl);
      }
      if r.expireAt <= now {
        r := r.(renewedAt := now);
      }
      row := Some(r);
    }

    method Renew(coll: Collation, worker: string, epoch: int, ttlNanos: int, now: int) returns (renewed: bool)
      modifies this
      ensures row == Renewed(coll, old(row), worker, epoch, TtlMicros(ttlNanos), now)
      ensures renewed <==>
                old(row).Some? && coll(old(row).value.owner) == coll(worker) && old(row).value.epoch == epoch
      ensures !renewed ==> row == old(row)
      ensures renewed ==> row.Some? && row.value.owner == old(row).value.owner && row.value.epoch == epoch
      ensures renewed ==> row.value.expireAt == now + TtlMicros(ttlNanos) && row.value.renewedAt == now
    {
      renewed := row.Some? && coll(row.value.owner) == coll(worker) && row.value.epoch == epoch;
      if renewed {
        row := Some(row.value.(expireAt := now + TtlMicros(ttlNanos), renewedAt := now));
      }
    }

    method Release(coll: Collation, worker: string, epoch: int, now: int) returns (released: bool)
      modifies this
      ensures row == Freed(coll, old(row), worker, epoch, now)
      ensures released <==>
                old(row).Some? && coll(old(row).value.owner) == coll(worker) && old(row).value.epoch == epoch
      ensures !released ==> row == old(row)
      ensures released ==> row == Some(Row("", epoch, now, now))
    {
      released := row.Some? && coll(row.value.owner) == coll(worker) && row.value.epoch == epoch;
      if released {
        row := Some(row.value.(owner := "", expireAt := now, renewedAt := now));
      }
    }
  }
}
