/**
 The graph definitions GraphDefinition builds for the monitoring host, as
 functions of the fetched catalog, and what they contain.
 */
module Graphs {

  import opened TdApi
  import Metrics

  /** One metric of a graph: its name and display label (`label` is a Dafny keyword). */
  datatype Metric = Metric(name: string, labelText: string)

  /** A graph: display label, unit, and the metrics it shows, in order. */
  datatype Graph = Graph(labelText: string, unit: string, metrics: seq<Metric>)

  const Unit := "integer"

  /**
   The keys of the three graphs written after the database loop. The
   `total_records` graph is keyed by the name of the metric it shows.
   */
  const JobsKey := "jobs"
  const RecordsKey := "records"

  const TotalRecordsGraph := Graph("Count total records", Unit, [Metric(Metrics.TotalRecords, "Total Records")])

  const JobsGraph := Graph("Count running/queued jobs", Unit, [Metric(Metrics.Queued, "Queued"), Metric(Metrics.Running, "Running")])

  /** The inner loop: one metric per table, named and labelled by the table name. */
  function TableMetrics(tables: seq<Table>): seq<Metric>
  {
    if tables == [] then []
    else
      var t := tables[|tables| - 1];
      TableMetrics(tables[..|tables| - 1]) + [Metric(t.name, t.name)]
  }

  /** The graph of one database. */
  function DatabaseGraph(e: Entry): Graph
  {
    Graph("Count " + e.db.name + " records", Unit, TableMetrics(e.tables))
  }

  /** The `db_metrics` list: one metric per database, in order. */
  function RecordMetrics(cat: seq<Entry>): seq<Metric>
  {
    if cat == [] then []
    else
      var d := cat[|cat| - 1].db;
      RecordMetrics(cat[..|cat| - 1]) + [Metric(Metrics.DbKey(d.name), d.name)]
  }

  /** The graphs map after the database loop. */
  function DatabaseGraphs(cat: seq<Entry>): map<string, Graph>
  {
    if cat == [] then map[]
    else
      var e := cat[|cat| - 1];
      DatabaseGraphs(cat[..|cat| - 1])[e.db.name := DatabaseGraph(e)]
  }

  /** The graph definitions GraphDefinition returns for the fetched catalog. */
  function GraphsOf(cat: seq<Entry>): map<string, Graph>
  {
    DatabaseGraphs(cat)
      [Metrics.TotalRecords := TotalRecordsGraph]
      [JobsKey := JobsGraph]
      [RecordsKey := Graph("Count DB records", Unit, RecordMetrics(cat))]
  }

  /** The database names of a catalog. */
  ghost function Names(cat: seq<Entry>): set<string>
  {
    set e | e in cat :: e.db.name
  }

  /** A database graph lists the tables of its database, in order, named and labelled by table name. */
  lemma {:induction false} TableMetricsListTables(tables: seq<Table>)
    ensures |TableMetrics(tables)| == |tables|
    ensures forall i | 0 <= i < |tables| :: TableMetrics(tables)[i] == Metric(tables[i].name, tables[i].name)
  {
    if tables != [] {
      TableMetricsListTables(tables[..|tables| - 1]);
    }
  }

  /** The `records` metrics are one per database, in order, named `db_<name>` and labelled `<name>`. */
  lemma {:induction false} RecordMetricsListDatabases(cat: seq<Entry>)
    ensures |RecordMetrics(cat)| == |cat|
    ensures forall i | 0 <= i < |cat| ::
      RecordMetrics(cat)[i] == Metric("db_" + cat[i].db.name, cat[i].db.name)
  {
    if cat != [] {
      RecordMetricsListDatabases(cat[..|cat| - 1]);
    }
  }

  /** The database loop makes one graph per database name, the last database of a name winning. */
  lemma {:induction false} DatabaseGraphsLast(cat: seq<Entry>, i: nat)
    ensures DatabaseGraphs(cat).Keys == Names(cat)
    ensures i < |cat| && (forall j | i < j < |cat| :: cat[j].db.name != cat[i].db.name) ==>
      DatabaseGraphs(cat)[cat[i].db.name] == DatabaseGraph(cat[i])
  {
    if cat != [] {
      var p, e := cat[..|cat| - 1], cat[|cat| - 1];
      assert cat == p + [e];
      DatabaseGraphsLast(p, i);
      assert Names(cat) == Names(p) + {e.db.name};
      if i < |p| {
        assert p[i] == cat[i];
      }
    }
  }

  /**
   The result always holds `total_records`, `jobs` and `records`, whatever the
   databases are called, and otherwise one graph per database name. Every graph
   has unit `integer`.
   */
  lemma FixedGraphs(cat: seq<Entry>)
    ensures GraphsOf(cat).Keys == {Metrics.TotalRecords, JobsKey, RecordsKey} + Names(cat)
    ensures forall name | name in GraphsOf(cat) :: GraphsOf(cat)[name].unit == "integer"
    ensures GraphsOf(cat)[Metrics.TotalRecords].labelText == "Count total records"
    ensures GraphsOf(cat)[Metrics.TotalRecords].metrics == [Metric("total_records", "Total Records")]
    ensures GraphsOf(cat)[JobsKey].labelText == "Count running/queued jobs"
    ensures GraphsOf(cat)[JobsKey].metrics == [Metric("queued", "Queued"), Metric("running", "Running")]
    ensures GraphsOf(cat)[RecordsKey].labelText == "Count DB records"
    ensures |GraphsOf(cat)[RecordsKey].metrics| == |cat|
    ensures forall i | 0 <= i < |cat| ::
      GraphsOf(cat)[RecordsKey].metrics[i] == Metric("db_" + cat[i].db.name, cat[i].db.name)
  {
    DatabaseGraphsLast(cat, 0);
    RecordMetricsListDatabases(cat);
    forall name | name in DatabaseGraphs(cat) ensures DatabaseGraphs(cat)[name].unit == Unit {
      DatabaseGraphsUnit(cat, name);
    }
  }

  /** Every database graph has unit `integer`. */
  lemma {:induction false} DatabaseGraphsUnit(cat: seq<Entry>, name: string)
    requires name in DatabaseGraphs(cat)
    ensures DatabaseGraphs(cat)[name].unit == Unit
  {
    var p, e := cat[..|cat| - 1], cat[|cat| - 1];
    if name != e.db.name {
      DatabaseGraphsUnit(p, name);
    }
  }

  /**
   A database whose name is none of the fixed graphs and is not repeated later
   gets the graph listing its own tables, in order, named and labelled by table name.
   */
  lemma DatabaseGraphListsTables(cat: seq<Entry>, i: nat)
    requires i < |cat|
    requires cat[i].db.name !in {Metrics.TotalRecords, JobsKey, RecordsKey}
    requires forall j | i < j < |cat| :: cat[j].db.name != cat[i].db.name
    ensures cat[i].db.name in GraphsOf(cat)
    ensures GraphsOf(cat)[cat[i].db.name].labelText == "Count " + cat[i].db.name + " records"
    ensures GraphsOf(cat)[cat[i].db.name].unit == "integer"
    ensures |GraphsOf(cat)[cat[i].db.name].metrics| == |cat[i].tables|
    ensures forall k | 0 <= k < |cat[i].tables| ::
      GraphsOf(cat)[cat[i].db.name].metrics[k] == Metric(cat[i].tables[k].name, cat[i].tables[k].name)
  {
    DatabaseGraphsLast(cat, i);
    assert cat[i] in cat;
    TableMetricsListTables(cat[i].tables);
  }

}
