/**
 * The `lockfiles` table (main.go:74-83) and the two handlers that use it:
 * the point lookup of `GetLockfileHandler` (main.go:142-157) and the upsert
 * of `PutLockfileHandler` (main.go:160-187).
 *
 * The table is a map keyed by `repository_id`, which makes the UNIQUE
 * constraint on that column structural. `uuid_generate_v4()` is modelled by
 * a counter of fresh ids and `CURRENT_TIMESTAMP` by a counter clock that
 * ticks once per write.
 */
module Store {
  import opened Wrappers
  import opened Records

  /** The declared length of the `repository_id` and `repository_name` columns. */
  const VARCHAR_LENGTH := 255

  /**
   * Assignment of a string to a VARCHAR(255) column: a string that fits is
   * stored as it is; a longer one is an error, except that excess characters
   * that are all spaces are cut off instead.
   */
  function ToVarchar(s: string): (r: Option<string>)
    ensures r.Some? ==> |r.value| <= VARCHAR_LENGTH && r.value <= s
    ensures |s| <= VARCHAR_LENGTH ==> r == Some(s)
    ensures r.None? <==> exists i :: VARCHAR_LENGTH <= i < |s| && s[i] != ' '
    ensures r.Some? && VARCHAR_LENGTH < |s| ==> r.value == s[..VARCHAR_LENGTH]
  {
    if |s| <= VARCHAR_LENGTH then Some(s)
    else if forall i :: VARCHAR_LENGTH <= i < |s| ==> s[i] == ' ' then Some(s[..VARCHAR_LENGTH])
    else None
  }

  /** The upsert's id and name both go into their columns without error. */
  predicate Storable(repositoryId: string, name: string)
  {
    ToVarchar(repositoryId).Some? && ToVarchar(name).Some?
  }

  /** Every row sits under its own `repository_id`. */
  predicate Keyed(rows: map<string, Lockfile>)
  {
    forall k :: k in rows ==> rows[k].repositoryId == k
  }

  /** The primary key `id` is unique across rows. */
  predicate UniqueIds(rows: map<string, Lockfile>)
  {
    forall k1, k2 :: k1 in rows && k2 in rows && k1 != k2 ==> rows[k1].id != rows[k2].id
  }

  /** Ids come from the generator and timestamps from the clock, created before updated. */
  predicate Stamped(rows: map<string, Lockfile>, clock: nat, nextId: nat)
  {
    forall k :: k in rows ==> rows[k].id < nextId && rows[k].createdAt <= rows[k].updatedAt <= clock
  }

  /** Every stored id and name fits its VARCHAR(255) column. */
  predicate Sized(rows: map<string, Lockfile>)
  {
    forall k :: k in rows ==> |k| <= VARCHAR_LENGTH && |rows[k].repositoryName| <= VARCHAR_LENGTH
  }

  predicate TableInvariant(rows: map<string, Lockfile>, clock: nat, nextId: nat)
  {
    Keyed(rows) && UniqueIds(rows) && Stamped(rows, clock, nextId) && Sized(rows)
  }

  /** `SELECT * FROM lockfiles WHERE repository_id = $1`: a row, or no rows. */
  function Lookup(rows: map<string, Lockfile>, repositoryId: string): (r: Option<Lockfile>)
    ensures r.Some? <==> repositoryId in rows
    ensures r.Some? ==> r.value == rows[repositoryId]
  {
    if repositoryId in rows then Some(rows[repositoryId]) else None
  }

  /**
   * `INSERT ... ON CONFLICT (repository_id) DO UPDATE SET content, repository_name,
   * updated_at`: a new key gets a fresh row stamped `now` twice; an existing
   * key keeps its id and creation time. No row is ever removed.
   */
  function Upsert(rows: map<string, Lockfile>, repositoryId: string, name: string,
                  content: seq<LockfileContent>, now: nat, freshId: nat): (after: map<string, Lockfile>)
    ensures after.Keys == rows.Keys + {repositoryId}
  {
    if repositoryId in rows then
      rows[repositoryId := rows[repositoryId].(repositoryName := name, content := content, updatedAt := now)]
    else
      rows[repositoryId := Lockfile(freshId, name, repositoryId, content, now, now)]
  }

  /**
   * After an upsert, a lookup of the written key finds the submitted name and
   * posts stamped `now`; on an existing key the id and creation time are the
   * old row's, on a new key they are the fresh id and `now`.
   */
  lemma UpsertThenLookup(rows: map<string, Lockfile>, repositoryId: string, name: string,
                         content: seq<LockfileContent>, now: nat, freshId: nat)
    ensures Lookup(Upsert(rows, repositoryId, name, content, now, freshId), repositoryId).Some?
    ensures var row := Lookup(Upsert(rows, repositoryId, name, content, now, freshId), repositoryId).value;
            row.repositoryName == name && row.content == content && row.updatedAt == now &&
            (repositoryId in rows ==>
               row.id == rows[repositoryId].id && row.createdAt == rows[repositoryId].createdAt &&
               row.repositoryId == rows[repositoryId].repositoryId) &&
            (repositoryId !in rows ==>
               row.id == freshId && row.createdAt == now && row.repositoryId == repositoryId)
  {
  }

  /** An upsert leaves every other `repository_id` as it was. */
  lemma UpsertLeavesOthers(rows: map<string, Lockfile>, repositoryId: string, name: string,
                           content: seq<LockfileContent>, now: nat, freshId: nat, other: string)
    requires other != repositoryId
    ensures Lookup(Upsert(rows, repositoryId, name, content, now, freshId), other) == Lookup(rows, other)
  {
  }

  /** An upsert on a new key adds exactly one row; on an existing key it adds none. */
  lemma UpsertRowCount(rows: map<string, Lockfile>, repositoryId: string, name: string,
                       content: seq<LockfileContent>, now: nat, freshId: nat)
    ensures var after := Upsert(rows, repositoryId, name, content, now, freshId);
            |after| == if repositoryId in rows then |rows| else |rows| + 1
  {
  }

  /**
   * An upsert of values that fit their columns, stamped with the next tick
   * and drawing the next fresh id, keeps the table invariant: one row per
   * key, unique ids, consistent timestamps, every value within its column.
   */
  lemma UpsertKeepsInvariant(rows: map<string, Lockfile>, clock: nat, nextId: nat,
                             repositoryId: string, name: string, content: seq<LockfileContent>)
    requires TableInvariant(rows, clock, nextId)
    requires |repositoryId| <= VARCHAR_LENGTH && |name| <= VARCHAR_LENGTH
    ensures TableInvariant(Upsert(rows, repositoryId, name, content, clock + 1, nextId), clock + 1, nextId + 1)
  {
  }

  /**
   * What one upsert does to the table as a whole: the written key reads back
   * the submitted name and posts, every other key reads as before, an
   * existing row keeps its id and creation time and moves its update time to
   * `now`, and only a new key adds a row.
   */
  lemma UpsertEffect(rows: map<string, Lockfile>, repositoryId: string, name: string,
                     content: seq<LockfileContent>, now: nat, freshId: nat)
    ensures var after := Upsert(rows, repositoryId, name, content, now, freshId);
            Lookup(after, repositoryId).Some? &&
            after[repositoryId].repositoryName == name && after[repositoryId].content == content &&
            (forall k :: k != repositoryId ==> Lookup(after, k) == Lookup(rows, k)) &&
            (repositoryId in rows ==>
               after[repositoryId].id == rows[repositoryId].id &&
               after[repositoryId].createdAt == rows[repositoryId].createdAt &&
               after[repositoryId].updatedAt == now &&
               |after| == |rows|) &&
            (repositoryId !in rows ==> |after| == |rows| + 1)
  {
    UpsertRowCount(rows, repositoryId, name, content, now, freshId);
  }

  /** One PUT as the table accepted it, with the id and name as stored. */
  datatype Write = Write(repositoryId: string, name: string, content: seq<LockfileContent>)

  /**
   * A run of accepted writes committed one after another, starting from
   * clock `clock` and generator state `nextId`; each write ticks both once.
   * No row of the table is ever lost.
   */
  function Replay(rows: map<string, Lockfile>, writes: seq<Write>, clock: nat, nextId: nat): (after: map<string, Lockfile>)
    ensures rows.Keys <= after.Keys
    decreases |writes|
  {
    if writes == [] then rows
    else
      var w := writes[0];
      Replay(Upsert(rows, w.repositoryId, w.name, w.content, clock + 1, nextId), writes[1..], clock + 1, nextId + 1)
  }

  /** The index of the last write to `repositoryId`, if there is one. */
  function LastWrite(writes: seq<Write>, repositoryId: string): (r: Option<nat>)
    ensures r.Some? ==> r.value < |writes| && writes[r.value].repositoryId == repositoryId &&
                        forall j :: r.value < j < |writes| ==> writes[j].repositoryId != repositoryId
    ensures r.None? ==> forall j :: 0 <= j < |writes| ==> writes[j].repositoryId != repositoryId
    decreases |writes|
  {
    if writes == [] then None
    else if writes[|writes| - 1].repositoryId == repositoryId then Some(|writes| - 1)
    else LastWrite(writes[..|writes| - 1], repositoryId)
  }

  /** The index of the first write to `repositoryId`, if there is one. */
  function FirstWrite(writes: seq<Write>, repositoryId: string): (r: Option<nat>)
    ensures r.Some? ==> r.value < |writes| && writes[r.value].repositoryId == repositoryId &&
                        forall j :: 0 <= j < r.value ==> writes[j].repositoryId != repositoryId
    ensures r.None? ==> forall j :: 0 <= j < |writes| ==> writes[j].repositoryId != repositoryId
    decreases |writes|
  {
    if writes == [] then None
    else if writes[0].repositoryId == repositoryId then Some(0)
    else match FirstWrite(writes[1..], repositoryId)
      case None => None
      case Some(i) => Some(i + 1)
  }

  /**
   * Last write wins: after a run of writes, the row of a key that was written
   * carries the name and posts of the last write to it, stamped with that
   * write's tick. Its id and creation time are those it had before the run,
   * or, for a key the run created, the id drawn and the tick of its first
   * write. A key that was not written is untouched.
   */
  lemma {:induction false} LastWriteWins(rows: map<string, Lockfile>, writes: seq<Write>, clock: nat, nextId: nat,
                                         repositoryId: string)
    ensures var after := Replay(rows, writes, clock, nextId);
            match LastWrite(writes, repositoryId)
            case None => Lookup(after, repositoryId) == Lookup(rows, repositoryId)
            case Some(i) =>
              repositoryId in after &&
              after[repositoryId].repositoryName == writes[i].name &&
              after[repositoryId].content == writes[i].content &&
              after[repositoryId].updatedAt == clock + i + 1 &&
              (repositoryId in rows ==>
                 after[repositoryId].id == rows[repositoryId].id &&
                 after[repositoryId].createdAt == rows[repositoryId].createdAt) &&
              (repositoryId !in rows ==>
                 FirstWrite(writes, repositoryId).Some? &&
                 after[repositoryId].id == nextId + FirstWrite(writes, repositoryId).value &&
                 after[repositoryId].createdAt == clock + FirstWrite(writes, repositoryId).value + 1)
    decreases |writes|
  {
    if writes == [] {
      return;
    }
    var w := writes[0];
    var rest := writes[1..];
    var mid := Upsert(rows, w.repositoryId, w.name, w.content, clock + 1, nextId);
    LastWriteWins(mid, rest, clock + 1, nextId + 1, repositoryId);
    LastWriteShift(writes, repositoryId);
  }

  /** How `LastWrite` of a run relates to `LastWrite` of its tail. */
  lemma LastWriteShift(writes: seq<Write>, repositoryId: string)
    requires writes != []
    ensures match LastWrite(writes[1..], repositoryId)
            case Some(i) => LastWrite(writes, repositoryId) == Some(i + 1)
            case None =>
              LastWrite(writes, repositoryId) ==
                (if writes[0].repositoryId == repositoryId then Some(0) else None)
  {
  }

  /**
   * Committing one more write after a run is the run extended by that write:
   * the write lands at the tick and draws the id that follow the run. Since
   * `LockfileStore.Commit` sets the table to exactly that upsert, a sequence
   * of commits leaves the table equal to `Replay` of the writes, and
   * `LastWriteWins` describes it.
   */
  lemma {:induction false} ReplaySnoc(rows: map<string, Lockfile>, writes: seq<Write>, w: Write, clock: nat, nextId: nat)
    ensures Replay(rows, writes + [w], clock, nextId) ==
            Upsert(Replay(rows, writes, clock, nextId), w.repositoryId, w.name, w.content,
                   clock + |writes| + 1, nextId + |writes|)
    decreases |writes|
  {
    if writes == [] {
      assert writes + [w] == [w];
      assert [w][1..] == [];
    } else {
      var mid := Upsert(rows, writes[0].repositoryId, writes[0].name, writes[0].content, clock + 1, nextId);
      assert (writes + [w])[0] == writes[0];
      assert (writes + [w])[1..] == writes[1..] + [w];
      ReplaySnoc(mid, writes[1..], w, clock + 1, nextId + 1);
    }
  }

  /** A run of one write is that write's upsert at the next tick. */
  lemma ReplaySingle(rows: map<string, Lockfile>, w: Write, clock: nat, nextId: nat)
    ensures Replay(rows, [w], clock, nextId) == Upsert(rows, w.repositoryId, w.name, w.content, clock + 1, nextId)
  {
    assert [w][1..] == [];
  }

  /**
   * The lockfile table. The UNIQUE `repository_id` is the map key; `clock`
   * stands for `CURRENT_TIMESTAMP` and `nextId` for `uuid_generate_v4()`.
   */
  class LockfileStore {
    var rows: map<string, Lockfile>
    var clock: nat
    var nextId: nat
    ghost predicate Valid()
      reads this
    {
      TableInvariant(rows, clock, nextId)
    }

    /** A fresh database: no rows, and nothing drawn from the clock or the id generator. */
    constructor ()
      ensures Valid() && rows == map[] && clock == 0 && nextId == 0
    {
      rows := map[];
      clock := 0;
      nextId := 0;
    }

    /**
     * Reopening a table that survived a restart (in release mode `initTables`
     * keeps its rows): any table that satisfies the invariant, with the
     * counters where it left them.
     */
    constructor Restore(rows: map<string, Lockfile>, clock: nat, nextId: nat)
      requires TableInvariant(rows, clock, nextId)
      ensures Valid() && this.rows == rows && this.clock == clock && this.nextId == nextId
    {
      this.rows := rows;
      this.clock := clock;
      this.nextId := nextId;
    }

    /**
     * The point lookup: no row is a normal answer, and a row found always
     * belongs to the key asked for.
     */
    function Get(repositoryId: string): (r: Option<Lockfile>)
      reads this
      requires Valid()
      ensures r.Some? <==> repositoryId in rows
      ensures r.Some? ==> r.value == rows[repositoryId] && r.value.repositoryId == repositoryId
    {
      Lookup(rows, repositoryId)
    }

    /**
     * The upsert of an id and name that fit their columns: the clock and the
     * id generator tick once, the table becomes the upsert at the new tick,
     * the table invariant still holds, and a `Get` of the key sees the
     * submitted name and posts.
     */
    method Commit(repositoryId: string, name: string, content: seq<LockfileContent>)
      requires Valid()
      requires |repositoryId| <= VARCHAR_LENGTH && |name| <= VARCHAR_LENGTH
      modifies this
      ensures Valid()
      ensures clock == old(clock) + 1 && nextId == old(nextId) + 1
      ensures rows == Upsert(old(rows), repositoryId, name, content, clock, old(nextId))
      ensures rows == Replay(old(rows), [Write(repositoryId, name, content)], old(clock), old(nextId))
      ensures Get(repositoryId).Some? && Get(repositoryId).value.repositoryName == name &&
              Get(repositoryId).value.content == content
    {
      UpsertKeepsInvariant(rows, clock, nextId, repositoryId, name, content);
      ReplaySingle(rows, Write(repositoryId, name, content), clock, nextId);
      clock := clock + 1;
      rows := Upsert(rows, repositoryId, name, content, clock, nextId);
      nextId := nextId + 1;
    }

    /**
     * `PutLockfileHandler`'s statement as Postgres runs it: the id and name
     * are first assigned to their VARCHAR(255) columns. If either does not fit
     * the statement fails and nothing changes. Otherwise the clock ticks, the
     * stored values land under the stored key, and a later `Get` of that key
     * sees them while every other key reads as before. An existing row keeps
     * its id and creation time and its `updated_at` moves strictly forward; a
     * new key adds exactly one row. Values that already fit read back as
     * submitted.
     */
    method Put(repositoryId: string, name: string, content: seq<LockfileContent>) returns (ok: bool)
      requires Valid()
      modifies this
      ensures Valid()
      ensures ok <==> Storable(repositoryId, name)
      ensures !ok ==> unchanged(this)
      ensures ok ==>
                var key := ToVarchar(repositoryId).value;
                clock == old(clock) + 1 && nextId == old(nextId) + 1 &&
                rows == Upsert(old(rows), key, ToVarchar(name).value, content, clock, old(nextId)) &&
                Get(key).Some? && Get(key).value.repositoryName == ToVarchar(name).value &&
                Get(key).value.content == content &&
                (forall k :: k != key ==> Lookup(rows, k) == Lookup(old(rows), k)) &&
                (key in old(rows) ==>
                   rows[key].id == old(rows[key].id) &&
                   rows[key].createdAt == old(rows[key].createdAt) &&
                   rows[key].updatedAt > old(rows[key].updatedAt) &&
                   |rows| == old(|rows|)) &&
                (key !in old(rows) ==> |rows| == old(|rows|) + 1)
      ensures ok && |repositoryId| <= VARCHAR_LENGTH && |name| <= VARCHAR_LENGTH ==>
                Get(repositoryId).Some? && Get(repositoryId).value.repositoryName == name
      ensures ok ==>
                rows == Replay(old(rows), [Write(ToVarchar(repositoryId).value, ToVarchar(name).value, content)],
                               old(clock), old(nextId))
    {
      var key := ToVarchar(repositoryId);
      var storedName := ToVarchar(name);
      if key.None? || storedName.None? {
        return false;
      }
      UpsertEffect(rows, key.value, storedName.value, content, clock + 1, nextId);
      assert key.value in rows ==> rows[key.value].updatedAt < clock + 1;
      Commit(key.value, storedName.value, content);
      return true;
    }
  }

  /** What `GetLockfileHandler` answers: `{"data": nil}`, `{"data": lockfile}` or an error. */
  datatype GetReply = GetReply(status: int, data: Option<Lockfile>)

  /**
   * `GetLockfileHandler`. `queryFails` stands for a storage fault of the
   * query itself (anything but "no rows"). A key never written answers 200
   * with no data, not an error.
   */
  method GetLockfileHandler(db: LockfileStore, repositoryId: string, queryFails: bool) returns (reply: GetReply)
    requires db.Valid()
    ensures queryFails ==> reply == GetReply(STATUS_INTERNAL_SERVER_ERROR, None)
    ensures !queryFails ==> reply.status == STATUS_OK
    ensures !queryFails && repositoryId !in db.rows ==> reply.data == None
    ensures !queryFails && repositoryId in db.rows ==>
              reply.data == Some(db.rows[repositoryId]) && reply.data.value.repositoryId == repositoryId
  {
    if queryFails {
      return GetReply(STATUS_INTERNAL_SERVER_ERROR, None);
    }
    var found := db.Get(repositoryId);
    if found.None? {
      return GetReply(STATUS_OK, None);
    }
    return GetReply(STATUS_OK, found);
  }

  /**
   * `PutLockfileHandler`. A body that fails binding answers 400 and never
   * reaches the table. A storage fault of the upsert answers 500 and leaves
   * the table as it was: either one from outside (`execFails`) or an id or
   * name too long for its column. Otherwise the upsert commits and the
   * handler answers 200.
   */
  method PutLockfileHandler(db: LockfileStore, repositoryId: string, body: Option<PutBody>, execFails: bool)
    returns (status: int)
    requires db.Valid()
    modifies db
    ensures db.Valid()
    ensures ShouldBindJSON(body).None? ==> status == STATUS_BAD_REQUEST && unchanged(db)
    ensures ShouldBindJSON(body).Some? &&
            (execFails || !Storable(repositoryId, ShouldBindJSON(body).value.repositoryName)) ==>
              status == STATUS_INTERNAL_SERVER_ERROR && unchanged(db)
    ensures ShouldBindJSON(body).Some? && !execFails &&
            Storable(repositoryId, ShouldBindJSON(body).value.repositoryName) ==>
              var request := ShouldBindJSON(body).value;
              status == STATUS_OK &&
              db.clock == old(db.clock) + 1 && db.nextId == old(db.nextId) + 1 &&
              db.rows == Upsert(old(db.rows), ToVarchar(repositoryId).value,
                                ToVarchar(request.repositoryName).value, request.posts,
                                db.clock, old(db.nextId))
  {
    var request := ShouldBindJSON(body);
    if request.None? {
      return STATUS_BAD_REQUEST;
    }
    if execFails {
      return STATUS_INTERNAL_SERVER_ERROR;
    }
    var ok := db.Put(repositoryId, request.value.repositoryName, request.value.posts);
    if !ok {
      return STATUS_INTERNAL_SERVER_ERROR;
    }
    return STATUS_OK;
  }
}
