# Treasure Data plugin for Mackerel — verified model

This project models the core of `mackerel-plugin-treasuredata` (package `mptd`, `lib/td.go`) in Dafny. The plugin asks the Treasure Data API for three lists: the databases, the tables of each database, and the jobs. It then gives the Mackerel plugin host two things:

- a flat metrics map from metric name to value (`FetchMetrics`);
- a map of graph definitions that groups those metrics for display (`GraphDefinition`).

It also gives the host a metric key prefix (`MetricKeyPrefix`).

The metric names share one namespace:

- `db_<database>` holds a database's record count;
- each table's record count is stored under the table's bare name;
- three counters are seeded at 0: `queued`, `running` and `total_records`.

Writes happen in database-then-table order, and a later write to the same key wins. The model makes exactly that explicit. The lemmas state when the expected facts hold, for example "`total_records` is the sum of the database counts", and what the map holds when names collide.

Layout:

- `wrappers.dfy`: `Option`.
- `td_api.dfy` (module `TdApi`): the entities `Database`, `Table` and `Job`. `Client` holds the answers of the three list calls; `None` stands for a failed call. `Catalog` pairs each database with its fetched tables.
- `metrics.dfy` (module `Metrics`): the metrics map as functions of the fetched data (`MetricsOf`). It also holds reference definitions that do not follow the loop structure:
  - the write log `Writes` with `LastWrite`;
  - `SumCounts`;
  - `Occurrences`.
  The lemmas connect these reference definitions to `MetricsOf`.
- `graphs.dfy` (module `Graphs`): the graph definitions as functions of the fetched data (`GraphsOf`), and lemmas on their contents.
- `plugin.dfy` (module `Mptd`): the `Plugin` value (prefix and client) and its three operations. `FetchMetrics` and `GraphDefinition` are methods with the source's loops. Each is proved to return exactly `MetricsOf` or `GraphsOf` of what it fetched, and nothing when a call fails.

Two facts one might expect hold only in part, because of the shared namespace:

- `total_records` equals the sum of the database counts only when no table is named `total_records` (`Metrics.TotalRecordsIsSum`). Otherwise it holds the count of the last such table plus the counts of the databases listed after it (`Metrics.TotalRecordsAfterCollision`). Even when the total is the sum, a table named `db_x` can overwrite database `x`'s own metric.
- `queued` and `running` are the job counts plus the count of the last table with that name, if there is one (`Metrics.JobCounter`).

## Model

| member | source | states |
|---|---|---|
| `Mptd.Plugin.MetricKeyPrefix` | lib/td.go:118-123 | An empty prefix gives `"td"`; any other prefix is returned unchanged; the result is never empty. The plugin is a value, so the caller's prefix is not modified. |
| `Mptd.Plugin.FetchMetrics` | lib/td.go:94-116 | Lists jobs, then databases, then each database's tables. It returns a map exactly when every call succeeds, and that map is `MetricsOf` of the fetched catalog and jobs. If any call fails, nothing is returned. |
| `Mptd.Plugin.GraphDefinition` | lib/td.go:50-92 | Lists the databases and each one's tables. It returns graph definitions exactly when every call succeeds, and they are `GraphsOf` of the fetched catalog. If any call fails, nothing is returned. |
| `TdApi.Catalog` | lib/td.go:23-39 | Pairs each listed database, in order, with the table list returned for its name. |
| `Metrics.DbKeyIsNotCounter` | lib/td.go:97-100 | A `db_<name>` key is never `queued`, `running` or `total_records`. |
| `Metrics.RecordTablesReplays` | lib/td.go:104-106 | The table loop adds exactly the table names as keys. Each holds the count of the last table of that name, and every other key keeps its value. |
| `Metrics.RecordCatalogReplays` | lib/td.go:97-107 | After the database loop the keys are the three counters plus every key written. Every key except `total_records` holds its last write in database-then-table order; `queued`/`running` hold 0 if never written. |
| `Metrics.RecordDatabaseTotal` | lib/td.go:100-106 | A database with no table named `total_records` adds exactly its count to that metric. |
| `Metrics.RecordCatalogTotal` | lib/td.go:99-107 | Suppose the databases after some prefix have no table named `total_records`. Then processing them adds exactly the sum of their counts to that key. |
| `Metrics.TotalRecordsOverwritten` | lib/td.go:101-106 | After the database holding the last table named `total_records`, the key holds that table's count; the running total is lost. |
| `Metrics.CountJobsTallies` | lib/td.go:109-113 | The job loop adds no key. It adds to `queued`/`running` the number of jobs whose status is exactly that string, and changes no other value. |
| `Metrics.MetricKeys` | lib/td.go:97-107 | The result's keys are exactly `queued`, `running`, `total_records`, every `db_<name>` and every table name of every database. |
| `Metrics.TotalRecordsIsSum` | lib/td.go:97-101 | If no table is named `total_records`, the result's `total_records` is the sum of all database counts. |
| `Metrics.TotalRecordsAfterCollision` | lib/td.go:97-107 | Let the last table named `total_records` be table `j` of database `k`. Then the result's `total_records` is that table's count plus the counts of all databases after `k`. |
| `Metrics.TotalRecordsCollisionExample` | lib/td.go:97-107 | Database `a` (count 1) holds a table `total_records` (count 10), followed by database `b` (count 2). The reported total is 12, while the counts sum to 3. |
| `Metrics.JobCounter` | lib/td.go:105-113 | `queued`/`running` is always present. It equals the count of the last same-named table (0 if none) plus the number of jobs with exactly that status. With no such table it is just the job count. |
| `Metrics.LastWriteWins` | lib/td.go:99-106 | Any other key is present exactly when it is a `db_` key or a table name. Its value is that of the last write to it in database-then-table order. |
| `Metrics.OtherJobsIgnored` | lib/td.go:109-113 | Inserting a job whose status is neither `queued` nor `running` anywhere in the job list changes no metric. |
| `Metrics.CollisionExample` | lib/td.go:97-113 | In a concrete case, table `t` in two databases keeps the later count, and table `db_a` overwrites database `a`'s metric. The total is the sum of the database counts, and only the `queued` job is counted. |
| `Graphs.TableMetricsListTables` | lib/td.go:60-63 | A database's metric list has one entry per table, in order, with Name = Label = the table name. |
| `Graphs.RecordMetricsListDatabases` | lib/td.go:53-57 | The `db_metrics` list has one entry per database, in order, with Name `db_<name>` and Label `<name>`. |
| `Graphs.DatabaseGraphsLast` | lib/td.go:56-66 | The database loop makes exactly one graph per database name. A repeated name keeps the graph of the last database listed under it. |
| `Graphs.FixedGraphs` | lib/td.go:65-89 | The result always has `total_records`, `jobs` and `records`, whatever the databases are called. Each has its fixed label. `jobs` lists `queued` then `running`, and `records` lists one `db_<name>` metric per database, in order. The only other keys are the database names, and every graph has unit `integer`. |
| `Graphs.DatabaseGraphsUnit` | lib/td.go:65 | Every graph the database loop writes has unit `integer`. |
| `Graphs.DatabaseGraphListsTables` | lib/td.go:56-66 | Take a database whose name is not one of the fixed graphs and is not repeated later. Its graph is labelled `Count <name> records`, has unit `integer`, and lists its tables in order, with Name = Label = the table name. |

## Left out

- The Treasure Data client calls `ListDatabases`, `ListTables` and `ListJobs` are network calls. A `Client` value stands for their answers. The same value answers every call, so the model does not capture data that changes between the calls of one run.
- A failed call prints the error and ends the process with exit status 2. The model cannot express ending the process: the operation returns `None` ("no result produced"), and the printed message is not modelled.
- `FetchMetrics` in the source also returns an error value that is always nil. The model returns only the map.
- `Do` is left out: flag parsing, client construction and handing the plugin to the Mackerel plugin runner are command-line and I/O plumbing.
- Metric values are `float64` in the source and mathematical integers here. The two agree only while every count and sum stays below 2^53; `float64` rounding beyond that is not modelled.
- Go distinguishes a nil slice from an empty one, for `db_metrics` with no databases and `table_metrics` with no tables. Both are the empty sequence here.
- How the host prints metrics and graph definitions belongs to the plugin library, which is not part of this model.
