/**
 The Treasure Data plugin for Mackerel: a value holding the metric key prefix
 and the client, with the three operations the plugin host calls.
 */
module Mptd {

  import opened Wrappers
  import opened TdApi
  import opened Metrics
  import opened Graphs

  /** The plugin: its configured metric key prefix and its Treasure Data client. */
  datatype Plugin = Plugin(prefix: string, client: Client) {

    /** The prefix the host puts before every metric name; empty means "td". */
    function MetricKeyPrefix(): (r: string)
      ensures prefix == "" ==> r == "td"
      ensures prefix != "" ==> r == prefix
      ensures r != ""
    {
      if prefix == "" then "td" else prefix
    }

    /**
     Lists the jobs, then the databases, then each database's tables, and builds
     the metrics map. A failed call ends the process, so nothing is returned.
     */
    method FetchMetrics() returns (r: Option<Stat>)
      ensures r.Some? <==>
        client.jobs.Some? && client.databases.Some? && TablesAvailable(client.tables, client.databases.value)
      ensures r.Some? ==>
        r.value == MetricsOf(Catalog(client.tables, client.databases.value), client.jobs.value)
    {
      if client.jobs.None? {
        return None;
      }
      var jobs := client.jobs.value;
      if client.databases.None? {
        return None;
      }
      var databases := client.databases.value;
      var stat: Stat := map[Queued := 0, Running := 0, TotalRecords := 0];

      ghost var fetched: seq<Entry> := [];
      var i := 0;
      while i < |databases|
        invariant 0 <= i <= |databases|
        invariant |fetched| == i
        invariant forall n | 0 <= n < i :: fetched[n].db == databases[n] && client.tables(databases[n].name) == Some(fetched[n].tables)
        invariant stat == RecordCatalog(fetched)
      {
        var database := databases[i];
        stat := stat[DbKey(database.name) := database.count];
        stat := stat[TotalRecords := Lookup(stat, TotalRecords) + database.count];

        var listed := client.tables(database.name);
        if listed.None? {
          assert database in databases;
          return None;
        }
        var tables := listed.value;
        ghost var base := stat;
        var j := 0;
        while j < |tables|
          invariant 0 <= j <= |tables|
          invariant stat == RecordTables(base, tables[..j])
        {
          var table := tables[j];
          assert tables[..j + 1][..j] == tables[..j];
          stat := stat[table.name := table.count];
          j := j + 1;
        }
        assert tables[..j] == tables;
        assert (fetched + [Entry(database, tables)])[..i] == fetched;
        fetched := fetched + [Entry(database, tables)];
        i := i + 1;
      }
      CatalogOfFetched(client.tables, databases, fetched);

      var k := 0;
      while k < |jobs|
        invariant 0 <= k <= |jobs|
        invariant stat == CountJobs(RecordCatalog(fetched), jobs[..k])
      {
        var job := jobs[k];
        assert jobs[..k + 1][..k] == jobs[..k];
        if job.status == Queued || job.status == Running {
          stat := stat[job.status := Lookup(stat, job.status) + 1];
        }
        k := k + 1;
      }
      assert jobs[..k] == jobs;
      return Some(stat);
    }

    /**
     Lists the databases and each database's tables, and builds one graph per
     database plus the fixed `total_records`, `jobs` and `records` graphs.
     A failed call ends the process, so nothing is returned.
     */
    method GraphDefinition() returns (r: Option<map<string, Graph>>)
      ensures r.Some? <==> client.databases.Some? && TablesAvailable(client.tables, client.databases.value)
      ensures r.Some? ==> r.value == GraphsOf(Catalog(client.tables, client.databases.value))
    {
      if client.databases.None? {
        return None;
      }
      var databases := client.databases.value;
      var dbMetrics: seq<Metric> := [];
      var graphs: map<string, Graph> := map[];

      ghost var fetched: seq<Entry> := [];
      var i := 0;
      while i < |databases|
        invariant 0 <= i <= |databases|
        invariant |fetched| == i
        invariant forall n | 0 <= n < i :: fetched[n].db == databases[n] && client.tables(databases[n].name) == Some(fetched[n].tables)
        invariant dbMetrics == RecordMetrics(fetched)
        invariant graphs == DatabaseGraphs(fetched)
      {
        var database := databases[i];
        dbMetrics := dbMetrics + [Metric(DbKey(database.name), database.name)];

        var listed := client.tables(database.name);
        if listed.None? {
          assert database in databases;
          return None;
        }
        var tables := listed.value;
        var tableMetrics: seq<Metric> := [];
        var j := 0;
        while j < |tables|
          invariant 0 <= j <= |tables|
          invariant tableMetrics == TableMetrics(tables[..j])
        {
          var table := tables[j];
          assert tables[..j + 1][..j] == tables[..j];
          tableMetrics := tableMetrics + [Metric(table.name, table.name)];
          j := j + 1;
        }
        assert tables[..j] == tables;

        graphs := graphs[database.name := Graph("Count " + database.name + " records", Unit, tableMetrics)];
        assert (fetched + [Entry(database, tables)])[..i] == fetched;
        fetched := fetched + [Entry(database, tables)];
        i := i + 1;
      }
      CatalogOfFetched(client.tables, databases, fetched);

      graphs := graphs[TotalRecords := TotalRecordsGraph];
      graphs := graphs[JobsKey := JobsGraph];
      graphs := graphs[RecordsKey := Graph("Count DB records", Unit, dbMetrics)];
      return Some(graphs);
    }
  }

}
