/**
 The Treasure Data entities the plugin reads, and the answers of the three
 list calls of the Treasure Data client (ListDatabases, ListTables, ListJobs).
 The client itself is a foreign network library; here it is a value that
 fixes the answer of every call, `None` standing for a call that failed.
 */
module TdApi {

  import opened Wrappers

  /** A database as returned by ListDatabases: its name and its record count. */
  datatype Database = Database(name: string, count: int)

  /** A table as returned by ListTables: its name and its record count. */
  datatype Table = Table(name: string, count: int)

  /** A job as returned by ListJobs; only its status is read. */
  datatype Job = Job(status: string)

  /** The answers of the client's three list calls; `None` is a failed call. */
  datatype Client = Client(
    databases: Option<seq<Database>>,
    tables: string -> Option<seq<Table>>,
    jobs: Option<seq<Job>>)

  /** A database together with the table list fetched for it. */
  datatype Entry = Entry(db: Database, tables: seq<Table>)

  /** Every table listing of the databases `dbs` succeeds. */
  predicate TablesAvailable(tablesOf: string -> Option<seq<Table>>, dbs: seq<Database>)
  {
    forall d | d in dbs :: tablesOf(d.name).Some?
  }

  /** The databases paired, in order, with the tables listed for each. */
  function Catalog(tablesOf: string -> Option<seq<Table>>, dbs: seq<Database>): (cat: seq<Entry>)
    requires TablesAvailable(tablesOf, dbs)
    ensures |cat| == |dbs|
    ensures forall i | 0 <= i < |dbs| :: cat[i].db == dbs[i] && Some(cat[i].tables) == tablesOf(dbs[i].name)
  {
    if dbs == [] then []
    else
      var d := dbs[|dbs| - 1];
      Catalog(tablesOf, dbs[..|dbs| - 1]) + [Entry(d, tablesOf(d.name).value)]
  }

  /** Table lists fetched one by one, in database order, form the catalog. */
  lemma CatalogOfFetched(tablesOf: string -> Option<seq<Table>>, dbs: seq<Database>, fetched: seq<Entry>)
    requires |fetched| == |dbs|
    requires forall n | 0 <= n < |dbs| :: fetched[n].db == dbs[n] && tablesOf(dbs[n].name) == Some(fetched[n].tables)
    ensures TablesAvailable(tablesOf, dbs)
    ensures fetched == Catalog(tablesOf, dbs)
  {
  }

}
