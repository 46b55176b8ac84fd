/**
 * The state `main` wires together (main.go:85-131): the table, the global
 * `githubActionsIPs` that the background loop refreshes, and the PUT route,
 * whose filter received `githubActionsIPs.Actions` once, when the route was
 * registered at main.go:116.
 */
module Server {
  import opened Wrappers
  import opened Records
  import opened Admission
  import opened Store

  class Server {
    const db: LockfileStore
    /** The allowlist the PUT route's filter was built with. */
    const putAllowList: seq<string>
    /** The global `githubActionsIPs.Actions`, overwritten by every refresh. */
    var githubActionsIPs: seq<string>

    ghost predicate Valid()
      reads this, db
    {
      db.Valid()
    }

    /**
     * Start-up after the table is initialised and the first fetch succeeded:
     * the global holds the fetched list and the PUT filter captures the same
     * list.
     */
    constructor (db: LockfileStore, initial: seq<string>)
      requires db.Valid()
      ensures this.db == db && Valid()
      ensures putAllowList == initial && githubActionsIPs == initial
    {
      this.db := db;
      putAllowList := initial;
      githubActionsIPs := initial;
    }

    /**
     * One tick of the refresh loop: the global takes whatever the fetch
     * returned, also when the fetch reported an error (the error is only
     * logged). The table and the PUT filter's list are not touched.
     */
    method Refresh(fetched: seq<string>, fetchFailed: bool)
      modifies this
      ensures githubActionsIPs == fetched
    {
      githubActionsIPs := fetched;
    }

    /**
     * A PUT request through the filter and the handler. A caller the filter
     * rejects gets 403 and the table is unchanged; a malformed range reached
     * before any match unwinds the request (500 from the router's recovery)
     * and the table is unchanged; an admitted caller reaches the handler,
     * whose 200 is the only outcome that ticks the clock and draws an id. The
     * decision is taken against `putAllowList`, whatever the refreshes did to
     * the global.
     */
    method HandlePut(clientIP: string, repositoryId: string, body: Option<PutBody>, execFails: bool,
                     parseIP: string -> Option<Addr>, parseCIDR: string -> Option<IPNet>)
      returns (status: int)
      requires Valid()
      modifies db
      ensures Valid()
      ensures var decision := Filter(Check(parseIP(clientIP), putAllowList, parseCIDR));
              (decision == AbortForbidden ==> status == STATUS_FORBIDDEN && unchanged(db)) &&
              (decision == Panicked ==> status == STATUS_INTERNAL_SERVER_ERROR && unchanged(db)) &&
              (decision == Next ==>
                 (ShouldBindJSON(body).None? ==> status == STATUS_BAD_REQUEST && unchanged(db)) &&
                 (ShouldBindJSON(body).Some? &&
                  (execFails || !Storable(repositoryId, ShouldBindJSON(body).value.repositoryName)) ==>
                    status == STATUS_INTERNAL_SERVER_ERROR && unchanged(db)) &&
                 (ShouldBindJSON(body).Some? && !execFails &&
                  Storable(repositoryId, ShouldBindJSON(body).value.repositoryName) ==>
                    status == STATUS_OK &&
                    db.clock == old(db.clock) + 1 && db.nextId == old(db.nextId) + 1 &&
                    db.rows == Upsert(old(db.rows), ToVarchar(repositoryId).value,
                                      ToVarchar(ShouldBindJSON(body).value.repositoryName).value,
                                      ShouldBindJSON(body).value.posts, db.clock, old(db.nextId))))
      ensures AllParse(putAllowList, parseCIDR) && !Admits(parseIP(clientIP), putAllowList, parseCIDR) ==>
                status == STATUS_FORBIDDEN && unchanged(db)
      ensures parseIP(clientIP).None? ==> status != STATUS_OK && unchanged(db)
    {
      FilterAdmitsIff(parseIP(clientIP), putAllowList, parseCIDR);
      var check := IsAllowedIP(clientIP, putAllowList, parseIP, parseCIDR);
      match Filter(check) {
        case AbortForbidden =>
          status := STATUS_FORBIDDEN;
        case Panicked =>
          status := STATUS_INTERNAL_SERVER_ERROR;
        case Next =>
          status := PutLockfileHandler(db, repositoryId, body, execFails);
      }
    }
  }
}
