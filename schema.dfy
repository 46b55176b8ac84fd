/**
 * `initTables` (main.go:239-268): the start-up decision whether to drop the
 * `lockfiles` table before the `CREATE TABLE IF NOT EXISTS` runs.
 *
 * The table is None when it does not exist. `failing` names the statements
 * the database rejects; the first rejected statement ends the function with
 * its error.
 */
module Schema {
  import opened Wrappers
  import opened Records

  datatype Statement =
    | CheckTableExists   // SELECT EXISTS(... information_schema.tables ...)
    | CheckTableEmpty    // SELECT NOT EXISTS(SELECT 1 FROM lockfiles)
    | DropTable          // DROP TABLE IF EXISTS lockfiles
    | CreateTable        // CREATE TABLE IF NOT EXISTS lockfiles (...)

  /**
   * The statements issued in order, the table they leave behind, and the
   * statement whose failure was returned as the error, if any.
   */
  datatype InitOutcome = InitOutcome(issued: seq<Statement>, table: Option<map<string, Lockfile>>,
                                     failedAt: Option<Statement>)

  /** The drop rule of main.go:256, as written. */
  predicate ShouldDrop(tableEmpty: bool, ginMode: string): (drop: bool)
    ensures drop <==> tableEmpty || ginMode != "release"
  {
    tableEmpty || (!tableEmpty && ginMode != "release")
  }

  /** The create step, issued after `issued`. */
  function Create(issued: seq<Statement>, table: Option<map<string, Lockfile>>, failing: set<Statement>): (r: InitOutcome)
    ensures r.issued == issued + [CreateTable]
    ensures r.failedAt.None? <==> CreateTable !in failing
    ensures r.failedAt.None? ==> r.table.Some? && (table.Some? ==> r.table == table)
    ensures r.failedAt.Some? ==> r.failedAt == Some(CreateTable) && r.table == table
  {
    if CreateTable in failing then InitOutcome(issued + [CreateTable], table, Some(CreateTable))
    else InitOutcome(issued + [CreateTable], if table.Some? then table else Some(map[]), None)
  }

  /**
   * `initTables`. Every run starts with the existence check; a run that
   * reports no error leaves a table behind and issued the create last; a run
   * that fails stops at the statement that failed.
   */
  function InitTables(table: Option<map<string, Lockfile>>, ginMode: string, failing: set<Statement>): (r: InitOutcome)
    ensures 0 < |r.issued| && r.issued[0] == CheckTableExists
    ensures r.failedAt.None? ==> r.table.Some? && r.issued[|r.issued| - 1] == CreateTable
    ensures r.failedAt.Some? ==> r.issued[|r.issued| - 1] == r.failedAt.value && r.failedAt.value in failing
    ensures r.table.None? ==> table.None? || DropTable in r.issued
  {
    if CheckTableExists in failing then
      InitOutcome([CheckTableExists], table, Some(CheckTableExists))
    else if table.None? then
      Create([CheckTableExists], None, failing)
    else if CheckTableEmpty in failing then
      InitOutcome([CheckTableExists, CheckTableEmpty], table, Some(CheckTableEmpty))
    else if ShouldDrop(|table.value| == 0, ginMode) then
      if DropTable in failing then
        InitOutcome([CheckTableExists, CheckTableEmpty, DropTable], table, Some(DropTable))
      else
        Create([CheckTableExists, CheckTableEmpty, DropTable], None, failing)
    else
      Create([CheckTableExists, CheckTableEmpty], table, failing)
  }

  /**
   * Once both checks succeed, the table is dropped iff it exists and it is
   * empty or the mode is not "release"; whenever no drop fails the create is
   * issued after it.
   */
  lemma DropIff(table: Option<map<string, Lockfile>>, ginMode: string, failing: set<Statement>)
    requires CheckTableExists !in failing && CheckTableEmpty !in failing
    ensures var r := InitTables(table, ginMode, failing);
            (DropTable in r.issued <==> table.Some? && (|table.value| == 0 || ginMode != "release")) &&
            (DropTable !in failing ==> r.issued[|r.issued| - 1] == CreateTable)
  {
  }

  /** In release mode a successful start never loses a row. */
  lemma ReleaseKeepsRows(rows: map<string, Lockfile>, failing: set<Statement>)
    requires failing == {}
    ensures InitTables(Some(rows), "release", failing).table == Some(rows)
  {

  }

  /** In any other mode a successful start leaves an empty table behind. */
  lemma OtherModesEmptyTheTable(table: Option<map<string, Lockfile>>, ginMode: string, failing: set<Statement>)
    requires ginMode != "release" && failing == {}
    ensures InitTables(table, ginMode, failing).table == Some(map[])
  {
  }
}
