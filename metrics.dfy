/**
 The metrics map built by FetchMetrics, as functions of the fetched data,
 and what it means: one flat namespace of metric names, written in
 database-then-table order with last-write-wins, plus three counters.
 */
module Metrics {

  import opened Wrappers
  import opened TdApi

  /** A metrics sample: metric name to value (float64 in the plugin, integers here). */
  type Stat = map<string, int>

  const Queued := "queued"
  const Running := "running"
  const TotalRecords := "total_records"

  /** The metric name under which a database's record count is reported. */
  function DbKey(name: string): string
  {
    "db_" + name
  }

  /** Reading a Go map: a missing key reads as zero. */
  function Lookup(stat: Stat, key: string): int
  {
    if key in stat then stat[key] else 0
  }

  /** The map FetchMetrics starts from. */
  function Seed(): Stat
  {
    map[Queued := 0, Running := 0, TotalRecords := 0]
  }

  /** Each table's count stored under the bare table name, in list order. */
  function RecordTables(stat: Stat, tables: seq<Table>): Stat
  {
    if tables == [] then stat
    else
      var t := tables[|tables| - 1];
      RecordTables(stat, tables[..|tables| - 1])[t.name := t.count]
  }

  /** One turn of the database loop: `db_<name>`, the running total, then the tables. */
  function RecordDatabase(stat: Stat, e: Entry): Stat
  {
    var s := stat[DbKey(e.db.name) := e.db.count];
    RecordTables(s[TotalRecords := Lookup(s, TotalRecords) + e.db.count], e.tables)
  }

  /** The map after the whole database loop. */
  function RecordCatalog(cat: seq<Entry>): Stat
  {
    if cat == [] then Seed()
    else RecordDatabase(RecordCatalog(cat[..|cat| - 1]), cat[|cat| - 1])
  }

  /** The job statuses FetchMetrics counts. */
  predicate Counted(status: string)
  {
    status == Queued || status == Running
  }

  /** The job loop: a counted status increments the metric of that name. */
  function CountJobs(stat: Stat, jobs: seq<Job>): Stat
  {
    if jobs == [] then stat
    else
      var s := CountJobs(stat, jobs[..|jobs| - 1]);
      var status := jobs[|jobs| - 1].status;
      if Counted(status) then s[status := Lookup(s, status) + 1] else s
  }

  /** The metrics FetchMetrics returns for the fetched catalog and jobs. */
  function MetricsOf(cat: seq<Entry>, jobs: seq<Job>): Stat
  {
    CountJobs(RecordCatalog(cat), jobs)
  }

  // ---------------------------------------------------------------------
  // Reference definitions, independent of the loop structure

  /** One assignment `stat[key] = value` of the database loop. */
  datatype Write = Write(key: string, value: int)

  /** The assignments made for one table list, in order. */
  function TableWrites(tables: seq<Table>): seq<Write>
  {
    seq(|tables|, i requires 0 <= i < |tables| => Write(tables[i].name, tables[i].count))
  }

  /** Every plain assignment of the database loop, database then its tables, in order. */
  function Writes(cat: seq<Entry>): seq<Write>
  {
    if cat == [] then []
    else
      var e := cat[|cat| - 1];
      Writes(cat[..|cat| - 1]) + [Write(DbKey(e.db.name), e.db.count)] + TableWrites(e.tables)
  }

  /** The value of the last write to `key` in `log`, if there is one. */
  function LastWrite(log: seq<Write>, key: string): Option<int>
  {
    if log == [] then None
    else if log[|log| - 1].key == key then Some(log[|log| - 1].value)
    else LastWrite(log[..|log| - 1], key)
  }

  /** The keys a log writes. */
  ghost function KeysOf(log: seq<Write>): set<string>
  {
    set w | w in log :: w.key
  }

  /** The `db_` metric names of a catalog. */
  ghost function DbKeys(cat: seq<Entry>): set<string>
  {
    set e | e in cat :: DbKey(e.db.name)
  }

  /** The table names of a catalog, over all its databases. */
  ghost function TableKeys(cat: seq<Entry>): set<string>
  {
    set e, t | e in cat && t in e.tables :: t.name
  }

  /** The sum of the databases' record counts. */
  function SumCounts(cat: seq<Entry>): int
  {
    if cat == [] then 0 else cat[0].db.count + SumCounts(cat[1..])
  }

  /** The number of jobs whose status is exactly `status`. */
  function Occurrences(jobs: seq<Job>, status: string): nat
  {
    if jobs == [] then 0
    else (if jobs[0].status == status then 1 else 0) + Occurrences(jobs[1..], status)
  }

  // ---------------------------------------------------------------------
  // Lemmas about the reference definitions

  /** A `db_` key is never one of the three seeded counters. */
  lemma DbKeyIsNotCounter(name: string)
    ensures DbKey(name) != Queued && DbKey(name) != Running && DbKey(name) != TotalRecords
  {
    assert DbKey(name)[0] == 'd';
    assert Queued[0] == 'q' && Running[0] == 'r' && TotalRecords[0] == 't';
  }

  /** LastWrite finds a write to the key exactly when there is one, and it is the last. */
  lemma {:induction false} LastWriteIsLast(log: seq<Write>, key: string)
    ensures LastWrite(log, key).Some? <==> key in KeysOf(log)
    ensures LastWrite(log, key).None? <==> forall i | 0 <= i < |log| :: log[i].key != key
    ensures LastWrite(log, key).Some? ==>
      exists i | 0 <= i < |log| ::
        log[i] == Write(key, LastWrite(log, key).value) && forall j | i < j < |log| :: log[j].key != key
  {
    if log != [] {
      var p, w := log[..|log| - 1], log[|log| - 1];
      assert log == p + [w];
      LastWriteIsLast(p, key);
      assert KeysOf(log) == KeysOf(p) + {w.key};
      if w.key != key && LastWrite(p, key).Some? {
        var i :| 0 <= i < |p| && p[i] == Write(key, LastWrite(p, key).value)
          && forall j | i < j < |p| :: p[j].key != key;
        assert log[i] == p[i];
      }
    }
  }

  /** In a concatenation, a write in the second part wins. */
  lemma {:induction false} LastWriteConcat(a: seq<Write>, b: seq<Write>, key: string)
    ensures LastWrite(a + b, key) == if LastWrite(b, key).Some? then LastWrite(b, key) else LastWrite(a, key)
  {
    if b == [] {
      assert a + b == a;
    } else {
      var p := b[..|b| - 1];
      assert (a + b)[..|a + b| - 1] == a + p;
      LastWriteConcat(a, p, key);
    }
  }

  /** The keys of a concatenation of logs. */
  lemma KeysOfConcat(a: seq<Write>, b: seq<Write>)
    ensures KeysOf(a + b) == KeysOf(a) + KeysOf(b)
  {
  }

  /** A table list writes exactly its table names. */
  lemma TableWritesKeys(tables: seq<Table>)
    ensures KeysOf(TableWrites(tables)) == set t | t in tables :: t.name
  {
    var tw := TableWrites(tables);
    forall k | k in KeysOf(tw) ensures k in set t | t in tables :: t.name {
      var w :| w in tw && w.key == k;
      var i :| 0 <= i < |tw| && tw[i] == w;
      assert tables[i] in tables;
    }
    forall t | t in tables ensures t.name in KeysOf(tw) {
      var i :| 0 <= i < |tables| && tables[i] == t;
      assert tw[i] in tw;
    }
  }

  /** The table names of a catalog extended by one database. */
  lemma TableKeysAppend(p: seq<Entry>, e: Entry)
    ensures TableKeys(p + [e]) == TableKeys(p) + set t | t in e.tables :: t.name
  {
  }

  /** The keys the database loop writes are the `db_` keys and the table names. */
  lemma {:induction false} WritesKeys(cat: seq<Entry>)
    ensures KeysOf(Writes(cat)) == DbKeys(cat) + TableKeys(cat)
  {
    if cat != [] {
      var p, e := cat[..|cat| - 1], cat[|cat| - 1];
      assert cat == p + [e];
      WritesKeys(p);
      var dw, tw := [Write(DbKey(e.db.name), e.db.count)], TableWrites(e.tables);
      KeysOfConcat(Writes(p) + dw, tw);
      KeysOfConcat(Writes(p), dw);
      TableWritesKeys(e.tables);
      TableKeysAppend(p, e);
      assert KeysOf(dw) == {DbKey(e.db.name)};
      assert DbKeys(cat) == DbKeys(p) + {DbKey(e.db.name)};
    }
  }

  /** Sums split over a concatenation. */
  lemma {:induction false} SumCountsAppend(a: seq<Entry>, b: seq<Entry>)
    ensures SumCounts(a + b) == SumCounts(a) + SumCounts(b)
  {
    if a != [] {
      assert (a + b)[1..] == a[1..] + b;
      SumCountsAppend(a[1..], b);
    } else {
      assert a + b == b;
    }
  }

  /** Counting over a concatenation. */
  lemma {:induction false} OccurrencesConcat(a: seq<Job>, b: seq<Job>, status: string)
    ensures Occurrences(a + b, status) == Occurrences(a, status) + Occurrences(b, status)
  {
    if a == [] {
      assert a + b == b;
    } else {
      assert (a + b)[1..] == a[1..] + b;
      OccurrencesConcat(a[1..], b, status);
    }
  }

  // ---------------------------------------------------------------------
  // What each loop of FetchMetrics does

  /** The table loop stores the last count listed under each table name, and adds no other key. */
  lemma {:induction false} RecordTablesReplays(stat: Stat, tables: seq<Table>, key: string)
    ensures key in RecordTables(stat, tables) <==> key in stat || LastWrite(TableWrites(tables), key).Some?
    ensures Lookup(RecordTables(stat, tables), key) ==
      if LastWrite(TableWrites(tables), key).Some? then LastWrite(TableWrites(tables), key).value
      else Lookup(stat, key)
  {
    if tables != [] {
      var p, t := tables[..|tables| - 1], tables[|tables| - 1];
      RecordTablesReplays(stat, p, key);
      assert TableWrites(tables)[..|tables| - 1] == TableWrites(p);
    }
  }

  /** The database loop: the three counters stay, every other key holds its last write. */
  lemma {:induction false} RecordCatalogReplays(cat: seq<Entry>, key: string)
    ensures key in RecordCatalog(cat) <==>
      key == Queued || key == Running || key == TotalRecords || LastWrite(Writes(cat), key).Some?
    ensures key != TotalRecords ==>
      Lookup(RecordCatalog(cat), key) ==
        if LastWrite(Writes(cat), key).Some? then LastWrite(Writes(cat), key).value else 0
  {
    if cat != [] {
      var p, e := cat[..|cat| - 1], cat[|cat| - 1];
      RecordCatalogReplays(p, key);
      var s1 := RecordCatalog(p)[DbKey(e.db.name) := e.db.count];
      var s2 := s1[TotalRecords := Lookup(s1, TotalRecords) + e.db.count];
      RecordTablesReplays(s2, e.tables, key);
      var dw := Write(DbKey(e.db.name), e.db.count);
      LastWriteConcat(Writes(p) + [dw], TableWrites(e.tables), key);
      assert (Writes(p) + [dw])[..|Writes(p) + [dw]| - 1] == Writes(p);
    }
  }

  /**
   Databases with no table named `total_records` each add their count to it:
   after a prefix `p`, a suffix `rest` adds `SumCounts(rest)`.
   */
  lemma {:induction false} RecordCatalogTotal(p: seq<Entry>, rest: seq<Entry>)
    requires TotalRecords !in TableKeys(rest)
    ensures Lookup(RecordCatalog(p + rest), TotalRecords) == Lookup(RecordCatalog(p), TotalRecords) + SumCounts(rest)
  {
    if rest == [] {
      assert p + rest == p;
    } else {
      var r, e := rest[..|rest| - 1], rest[|rest| - 1];
      assert rest == r + [e];
      TableKeysAppend(r, e);
      RecordCatalogTotal(p, r);
      assert (p + rest)[..|p + rest| - 1] == p + r;
      assert RecordCatalog(p + rest) == RecordDatabase(RecordCatalog(p + r), e);
      RecordDatabaseTotal(RecordCatalog(p + r), e);
      SumCountsAppend(r, [e]);
    }
  }

  /** A database with no table named `total_records` adds its count to that metric. */
  lemma RecordDatabaseTotal(stat: Stat, e: Entry)
    requires TotalRecords !in set t | t in e.tables :: t.name
    ensures Lookup(RecordDatabase(stat, e), TotalRecords) == Lookup(stat, TotalRecords) + e.db.count
  {
    var s1 := stat[DbKey(e.db.name) := e.db.count];
    var s2 := s1[TotalRecords := Lookup(s1, TotalRecords) + e.db.count];
    RecordTablesReplays(s2, e.tables, TotalRecords);
    LastWriteIsLast(TableWrites(e.tables), TotalRecords);
    forall i | 0 <= i < |e.tables| ensures TableWrites(e.tables)[i].key != TotalRecords {
      assert e.tables[i] in e.tables;
    }
    DbKeyIsNotCounter(e.db.name);
  }

  /** The last table named `total_records` overwrites the running total with its own count. */
  lemma TotalRecordsOverwritten(cat: seq<Entry>, k: nat, j: nat)
    requires k < |cat| && j < |cat[k].tables|
    requires cat[k].tables[j].name == TotalRecords
    requires forall n | j < n < |cat[k].tables| :: cat[k].tables[n].name != TotalRecords
    ensures Lookup(RecordCatalog(cat[..k + 1]), TotalRecords) == cat[k].tables[j].count
  {
    var e := cat[k];
    assert cat[..k + 1][..k] == cat[..k];
    var s1 := RecordCatalog(cat[..k])[DbKey(e.db.name) := e.db.count];
    var s2 := s1[TotalRecords := Lookup(s1, TotalRecords) + e.db.count];
    var tw := TableWrites(e.tables);
    RecordTablesReplays(s2, e.tables, TotalRecords);
    LastWriteIsLast(tw, TotalRecords);
    assert tw[j].key == TotalRecords;
    var i :| 0 <= i < |tw| && tw[i] == Write(TotalRecords, LastWrite(tw, TotalRecords).value)
      && forall n | i < n < |tw| :: tw[n].key != TotalRecords;
    assert i == j;
  }

  /** The job loop adds to each counter the number of jobs with exactly that status, and touches nothing else. */
  lemma {:induction false} CountJobsTallies(stat: Stat, jobs: seq<Job>, key: string)
    requires Queued in stat && Running in stat
    ensures key in CountJobs(stat, jobs) <==> key in stat
    ensures Lookup(CountJobs(stat, jobs), key) ==
      Lookup(stat, key) + if Counted(key) then Occurrences(jobs, key) else 0
  {
    if jobs != [] {
      var p, j := jobs[..|jobs| - 1], jobs[|jobs| - 1];
      assert jobs == p + [j];
      CountJobsTallies(stat, p, key);
      CountJobsTallies(stat, p, j.status);
      OccurrencesConcat(p, [j], key);
    }
  }

  // ---------------------------------------------------------------------
  // What FetchMetrics returns

  /** The result holds exactly the three counters, the `db_` keys and the table names. */
  lemma MetricKeys(cat: seq<Entry>, jobs: seq<Job>)
    ensures MetricsOf(cat, jobs).Keys == {Queued, Running, TotalRecords} + DbKeys(cat) + TableKeys(cat)
  {
    WritesKeys(cat);
    RecordCatalogReplays(cat, Queued);
    RecordCatalogReplays(cat, Running);
    forall key ensures key in MetricsOf(cat, jobs) <==> key in {Queued, Running, TotalRecords} + DbKeys(cat) + TableKeys(cat) {
      RecordCatalogReplays(cat, key);
      LastWriteIsLast(Writes(cat), key);
      CountJobsTallies(RecordCatalog(cat), jobs, key);
    }
  }

  /** With no table named `total_records`, that metric is the sum of the database counts. */
  lemma TotalRecordsIsSum(cat: seq<Entry>, jobs: seq<Job>)
    requires TotalRecords !in TableKeys(cat)
    ensures TotalRecords in MetricsOf(cat, jobs)
    ensures MetricsOf(cat, jobs)[TotalRecords] == SumCounts(cat)
  {
    MetricKeys(cat, jobs);
    RecordCatalogReplays(cat, Queued);
    RecordCatalogReplays(cat, Running);
    RecordCatalogTotal([], cat);
    assert [] + cat == cat;
    CountJobsTallies(RecordCatalog(cat), jobs, TotalRecords);
  }

  /**
   When tables are named `total_records`, the metric holds the count of the last
   such table, database `k`'s table `j`, plus the counts of the databases after `k`.
   */
  lemma TotalRecordsAfterCollision(cat: seq<Entry>, jobs: seq<Job>, k: nat, j: nat)
    requires k < |cat| && j < |cat[k].tables|
    requires cat[k].tables[j].name == TotalRecords
    requires forall n | j < n < |cat[k].tables| :: cat[k].tables[n].name != TotalRecords
    requires TotalRecords !in TableKeys(cat[k + 1..])
    ensures TotalRecords in MetricsOf(cat, jobs)
    ensures MetricsOf(cat, jobs)[TotalRecords] == cat[k].tables[j].count + SumCounts(cat[k + 1..])
  {
    MetricKeys(cat, jobs);
    RecordCatalogReplays(cat, Queued);
    RecordCatalogReplays(cat, Running);
    TotalRecordsOverwritten(cat, k, j);
    RecordCatalogTotal(cat[..k + 1], cat[k + 1..]);
    assert cat[..k + 1] + cat[k + 1..] == cat;
    CountJobsTallies(RecordCatalog(cat), jobs, TotalRecords);
  }

  /**
   A table named `total_records` breaks the sum: database `a` (count 1) with such a
   table (count 10), then database `b` (count 2), reports 12 where the counts sum to 3.
   */
  lemma TotalRecordsCollisionExample()
    ensures
      var cat := [Entry(Database("a", 1), [Table("total_records", 10)]), Entry(Database("b", 2), [])];
      MetricsOf(cat, [])[TotalRecords] == 12 && SumCounts(cat) == 3
  {
    var cat := [Entry(Database("a", 1), [Table("total_records", 10)]), Entry(Database("b", 2), [])];
    assert cat[1..] == [cat[1]] && cat[1..][1..] == [];
    assert TableKeys(cat[1..]) == {};
    TotalRecordsAfterCollision(cat, [], 0, 0);
  }

  /**
   `queued` and `running` hold the number of jobs with exactly that status,
   on top of the count of a table of the same name written last (0 if none).
   */
  lemma JobCounter(cat: seq<Entry>, jobs: seq<Job>, status: string)
    requires Counted(status)
    ensures status in MetricsOf(cat, jobs)
    ensures MetricsOf(cat, jobs)[status] ==
      (if LastWrite(Writes(cat), status).Some? then LastWrite(Writes(cat), status).value else 0)
      + Occurrences(jobs, status)
    ensures status !in TableKeys(cat) ==> MetricsOf(cat, jobs)[status] == Occurrences(jobs, status)
  {
    MetricKeys(cat, jobs);
    RecordCatalogReplays(cat, Queued);
    RecordCatalogReplays(cat, Running);
    RecordCatalogReplays(cat, status);
    CountJobsTallies(RecordCatalog(cat), jobs, status);
    if status !in TableKeys(cat) {
      WritesKeys(cat);
      LastWriteIsLast(Writes(cat), status);
      if status in DbKeys(cat) {
        var e :| e in cat && DbKey(e.db.name) == status;
        DbKeyIsNotCounter(e.db.name);
      }
    }
  }

  /**
   Every other key is present exactly when some database or table wrote it,
   and holds the value of the last such write in database-then-table order.
   */
  lemma LastWriteWins(cat: seq<Entry>, jobs: seq<Job>, key: string)
    requires key != Queued && key != Running && key != TotalRecords
    ensures key in MetricsOf(cat, jobs) <==> key in DbKeys(cat) + TableKeys(cat)
    ensures key in MetricsOf(cat, jobs) ==>
      var log := Writes(cat);
      exists i | 0 <= i < |log| ::
        log[i] == Write(key, MetricsOf(cat, jobs)[key]) && forall j | i < j < |log| :: log[j].key != key
  {
    MetricKeys(cat, jobs);
    RecordCatalogReplays(cat, Queued);
    RecordCatalogReplays(cat, Running);
    RecordCatalogReplays(cat, key);
    CountJobsTallies(RecordCatalog(cat), jobs, key);
    WritesKeys(cat);
    LastWriteIsLast(Writes(cat), key);
  }

  /** A job whose status is neither `queued` nor `running` changes no metric, wherever it is listed. */
  lemma OtherJobsIgnored(cat: seq<Entry>, before: seq<Job>, j: Job, after: seq<Job>)
    requires !Counted(j.status)
    ensures MetricsOf(cat, before + [j] + after) == MetricsOf(cat, before + after)
  {
    var stat := RecordCatalog(cat);
    RecordCatalogReplays(cat, Queued);
    RecordCatalogReplays(cat, Running);
    forall key ensures key in MetricsOf(cat, before + [j] + after) <==> key in MetricsOf(cat, before + after) {
      CountJobsTallies(stat, before + [j] + after, key);
      CountJobsTallies(stat, before + after, key);
    }
    forall key | key in MetricsOf(cat, before + after)
      ensures MetricsOf(cat, before + [j] + after)[key] == MetricsOf(cat, before + after)[key]
    {
      CountJobsTallies(stat, before + [j] + after, key);
      CountJobsTallies(stat, before + after, key);
      OccurrencesConcat(before + [j], after, key);
      OccurrencesConcat(before, [j], key);
      OccurrencesConcat(before, after, key);
    }
  }

  /**
   Table names share one namespace: the same table name in two databases keeps
   the later count, and a table named `db_a` overwrites database `a`'s metric.
   */
  lemma CollisionExample()
    ensures
      var cat := [Entry(Database("a", 1), [Table("t", 5)]),
                  Entry(Database("b", 2), [Table("t", 7), Table("db_a", 9)])];
      MetricsOf(cat, [Job("queued"), Job("success")]) ==
        map["queued" := 1, "running" := 0, "total_records" := 3, "db_a" := 9, "db_b" := 2, "t" := 7]
  {
    var jobs := [Job("queued"), Job("success")];
    var a := Entry(Database("a", 1), [Table("t", 5)]);
    var b := Entry(Database("b", 2), [Table("t", 7), Table("db_a", 9)]);
    assert [a, b][..1] == [a];
    assert [a][..0] == [];
    assert b.tables[..1] == [Table("t", 7)];
    assert [Table("t", 7)][..0] == [];
    assert a.tables[..0] == [];
    var s0 := Seed()[DbKey("a") := 1];
    assert Lookup(s0, TotalRecords) == 0;
    var afterA := s0[TotalRecords := 1]["t" := 5];
    assert RecordCatalog([a]) == RecordDatabase(Seed(), a);
    assert RecordTables(s0[TotalRecords := 1], a.tables) == afterA;
    assert RecordCatalog([a]) == afterA;
    var s1 := afterA[DbKey("b") := 2];
    assert Lookup(s1, TotalRecords) == 1;
    var s2 := s1[TotalRecords := 3];
    assert RecordTables(s2, [Table("t", 7)]) == s2["t" := 7];
    assert RecordCatalog([a, b]) == RecordDatabase(afterA, b);
    assert RecordCatalog([a, b]) == s2["t" := 7]["db_a" := 9];
    assert MetricsOf([a, b], jobs) == CountJobs(s2["t" := 7]["db_a" := 9], jobs);
    assert jobs[..1] == [Job("queued")];
    assert [Job("queued")][..0] == [];
    var m := s2["t" := 7]["db_a" := 9];
    assert CountJobs(m, [Job("queued")]) == m[Queued := 1];
    assert !Counted("success");
    assert CountJobs(m, jobs) == m[Queued := 1];
    assert DbKey("a") == "db_a" && DbKey("b") == "db_b";
    var want := map["queued" := 1, "running" := 0, "total_records" := 3, "db_a" := 9, "db_b" := 2, "t" := 7];
    assert m[Queued := 1].Keys == want.Keys;
    assert m[Queued := 1] == want;
  }

}
