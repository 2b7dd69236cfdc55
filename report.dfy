/**
  The report tables of the usage reporter (the non-I/O part of
  `export_results_to_zip` and the metric summary of `main`): the metric
  summary, one detail row per workspace with a count column per
  environment label and per organisation, sorted by workload count, and
  the month table.

  A detail row is built as the merge `{**env_data, **org_data}` of two
  Python dicts. A dict keeps its keys in the order they were first
  inserted, and a later value for a key already present replaces the
  earlier one in place; `DictOf` models that merge on a sequence of
  key-value pairs.
 */
module Report {
  import opened Wrappers
  import opened Text
  import opened Classifiers
  import opened Services
  import opened Monthly
  import opened Developers

  type Columns = seq<(string, nat)>

  // ---------------------------------------------------------------------------
  // Ordered dicts
  // ---------------------------------------------------------------------------

  lemma KeysOfConcat(a: Columns, b: Columns)
    ensures KeysOf(a + b) == KeysOf(a) + KeysOf(b)
  {
  }

  /** `d[k] = v`: an existing key keeps its position and takes the new value; a new key goes at the end. */
  function Upsert(cols: Columns, k: string, v: nat): Columns {
    if k in KeysOf(cols) then
      seq(|cols|, i requires 0 <= i < |cols| => if cols[i].0 == k then (k, v) else cols[i])
    else
      cols + [(k, v)]
  }

  /** An existing key keeps its position and takes the new value; a new key goes at the end. */
  lemma UpsertIsInsert(cols: Columns, k: string, v: nat)
    ensures KeysOf(Upsert(cols, k, v)) == if k in KeysOf(cols) then KeysOf(cols) else KeysOf(cols) + [k]
    ensures forall i :: 0 <= i < |cols| ==> Upsert(cols, k, v)[i] == if cols[i].0 == k then (k, v) else cols[i]
    ensures k !in KeysOf(cols) ==> Upsert(cols, k, v)[|cols|] == (k, v)
  {
    var r := Upsert(cols, k, v);
    if k in KeysOf(cols) {
      assert KeysOf(r) == KeysOf(cols);
    } else {
      KeysOfConcat(cols, [(k, v)]);
    }
  }

  /** The value the last pair with key `k` carries, as `dict(pairs)[k]` would give it. */
  function LastValue(pairs: Columns, k: string): (v: Option<nat>)
    ensures v.Some? <==> k in KeysOf(pairs)
    decreases |pairs|
  {
    if |pairs| == 0 then None
    else
      var n := |pairs| - 1;
      assert pairs == pairs[..n] + [pairs[n]];
      KeysOfConcat(pairs[..n], [pairs[n]]);
      if pairs[n].0 == k then Some(pairs[n].1) else LastValue(pairs[..n], k)
  }

  /**
    The dict built by inserting `pairs` in order: each key once, at the
    position of its first pair, with the value of its last pair.
   */
  function DictOf(pairs: Columns): Columns
    decreases |pairs|
  {
    if |pairs| == 0 then [] else Upsert(DictOf(pairs[..|pairs| - 1]), pairs[|pairs| - 1].0, pairs[|pairs| - 1].1)
  }

  /** The merged dict has distinct keys, the keys of the pairs, and for each key the value of its last pair. */
  lemma {:induction false} DictOfIsDict(pairs: Columns)
    ensures Distinct(KeysOf(DictOf(pairs)))
    ensures forall k :: k in KeysOf(DictOf(pairs)) <==> k in KeysOf(pairs)
    ensures forall i :: 0 <= i < |DictOf(pairs)| ==> LastValue(pairs, DictOf(pairs)[i].0) == Some(DictOf(pairs)[i].1)
    decreases |pairs|
  {
    if |pairs| > 0 {
      var n := |pairs| - 1;
      DictOfIsDict(pairs[..n]);
      DictOfStep(pairs[..n], pairs[n], DictOf(pairs[..n]));
      assert pairs == pairs[..n] + [pairs[n]];
    }
  }

  /** One insertion keeps the three properties of `DictOf`. */
  lemma DictOfStep(init: Columns, c: (string, nat), prev: Columns)
    requires Distinct(KeysOf(prev))
    requires forall k :: k in KeysOf(prev) <==> k in KeysOf(init)
    requires forall i :: 0 <= i < |prev| ==> LastValue(init, prev[i].0) == Some(prev[i].1)
    ensures var d := Upsert(prev, c.0, c.1);
            && Distinct(KeysOf(d))
            && (forall k :: k in KeysOf(d) <==> k in KeysOf(init + [c]))
            && (forall i :: 0 <= i < |d| ==> LastValue(init + [c], d[i].0) == Some(d[i].1))
  {
    var d := Upsert(prev, c.0, c.1);
    UpsertIsInsert(prev, c.0, c.1);
    KeysOfConcat(init, [c]);
    if c.0 !in KeysOf(prev) {
      DistinctSnoc(KeysOf(prev), c.0);
    }
    forall i | 0 <= i < |d| ensures LastValue(init + [c], d[i].0) == Some(d[i].1) {
      LastValueSnoc(init, c, d[i].0);
      if i < |prev| && prev[i].0 != c.0 {
        assert d[i] == prev[i];
      }
    }
  }

  /** Pairs with distinct keys already form a dict. */
  lemma {:induction false} DictOfDistinct(pairs: Columns)
    requires Distinct(KeysOf(pairs))
    ensures DictOf(pairs) == pairs
    decreases |pairs|
  {
    if |pairs| > 0 {
      var n := |pairs| - 1;
      assert pairs == pairs[..n] + [pairs[n]];
      KeysOfConcat(pairs[..n], [pairs[n]]);
      assert Distinct(KeysOf(pairs[..n]));
      DictOfDistinct(pairs[..n]);
      assert pairs[n].0 !in KeysOf(pairs[..n]);
      var d := DictOf(pairs);
      assert |d| == |pairs|;
      forall i | 0 <= i < |pairs| ensures d[i] == pairs[i] {
        assert d[i].0 == KeysOf(d)[i] == KeysOf(pairs)[i];
      }
    }
  }

  /** Merging more pairs never moves the keys already there. */
  lemma {:induction false} DictOfPrefix(a: Columns, b: Columns)
    ensures |DictOf(a)| <= |DictOf(a + b)|
    ensures KeysOf(DictOf(a + b))[..|DictOf(a)|] == KeysOf(DictOf(a))
    decreases |b|
  {
    if |b| == 0 {
      assert a + b == a;
    } else {
      var n := |b| - 1;
      assert a + b == (a + b[..n]) + [b[n]];
      DictOfPrefix(a, b[..n]);
      var ab := a + b;
      assert ab[..|ab| - 1] == a + b[..n];
      var c := DictOf(a + b[..n]);
      var d := DictOf(ab);
      assert d == Upsert(c, b[n].0, b[n].1);
      UpsertIsInsert(c, b[n].0, b[n].1);
      assert KeysOf(d)[..|c|] == KeysOf(c);
      var m := |DictOf(a)|;
      assert KeysOf(d)[..m] == KeysOf(d)[..|c|][..m];
    }
  }

  lemma {:induction false} LastValueAt(pairs: Columns, i: nat)
    requires Distinct(KeysOf(pairs)) && i < |pairs|
    ensures LastValue(pairs, pairs[i].0) == Some(pairs[i].1)
    decreases |pairs|
  {
    var n := |pairs| - 1;
    if i < n {
      assert KeysOf(pairs)[i] != KeysOf(pairs)[n];
      assert pairs == pairs[..n] + [pairs[n]];
      KeysOfConcat(pairs[..n], [pairs[n]]);
      assert Distinct(KeysOf(pairs[..n]));
      LastValueAt(pairs[..n], i);
    }
  }

  /** The value of `k` after one more pair. */
  lemma LastValueSnoc(pairs: Columns, c: (string, nat), k: string)
    ensures LastValue(pairs + [c], k) == if c.0 == k then Some(c.1) else LastValue(pairs, k)
  {
    var ps := pairs + [c];
    assert ps[..|ps| - 1] == pairs;
  }

  lemma {:induction false} LastValueConcat(a: Columns, b: Columns, k: string)
    ensures LastValue(a + b, k) == if k in KeysOf(b) then LastValue(b, k) else LastValue(a, k)
    decreases |b|
  {
    if |b| == 0 {
      assert a + b == a;
    } else {
      var n := |b| - 1;
      LastValueConcat(a, b[..n], k);
      assert b == b[..n] + [b[n]];
      assert a + b == (a + b[..n]) + [b[n]];
      LastValueSnoc(a + b[..n], b[n], k);
      LastValueSnoc(b[..n], b[n], k);
      KeysOfConcat(b[..n], [b[n]]);
    }
  }

  /** A pair is in the merged dict exactly when it carries the last value given for its key. */
  lemma DictOfLookup(pairs: Columns, k: string, v: nat)
    ensures (k, v) in DictOf(pairs) <==> LastValue(pairs, k) == Some(v)
  {
    var d := DictOf(pairs);
    DictOfIsDict(pairs);
    if LastValue(pairs, k) == Some(v) {
      assert k in KeysOf(d);
      var i :| 0 <= i < |d| && KeysOf(d)[i] == k;
      assert d[i] == (k, v);
    }
  }

  // ---------------------------------------------------------------------------
  // Detail rows
  // ---------------------------------------------------------------------------

  const ColumnPrefix: string := "workloads_in_"

  /** `f'workloads_in_{name}'`. */
  function Column(name: string): (column: string)
    ensures StartsWith(column, ColumnPrefix) && column[|ColumnPrefix|..] == name
  {
    ColumnPrefix + name
  }

  lemma ColumnInjective(a: string, b: string)
    requires Column(a) == Column(b)
    ensures a == b
  {
  }

  /** `counts.get(name, 0)`. */
  function Get(counts: map<string, nat>, name: string): nat {
    if name in counts then counts[name] else 0
  }

  /** `{f'workloads_in_{n}': counts.get(n, 0) for n in names}` as its sequence of pairs. */
  function CountColumns(names: seq<string>, counts: map<string, nat>): (cols: Columns)
    ensures |cols| == |names|
    ensures forall i :: 0 <= i < |names| ==> cols[i] == (Column(names[i]), Get(counts, names[i]))
  {
    seq(|names|, i requires 0 <= i < |names| => (Column(names[i]), Get(counts, names[i])))
  }

  lemma CountColumnsDistinct(names: seq<string>, counts: map<string, nat>)
    requires Distinct(names)
    ensures Distinct(KeysOf(CountColumns(names, counts)))
  {
    var cols := CountColumns(names, counts);
    forall i, j | 0 <= i < j < |cols| ensures KeysOf(cols)[i] != KeysOf(cols)[j] {
      if Column(names[i]) == Column(names[j]) {
        ColumnInjective(names[i], names[j]);
      }
    }
  }

  /** `Column(name)` is a key of the columns of `names` exactly when `name` is one of them. */
  lemma CountColumnsKey(names: seq<string>, counts: map<string, nat>, name: string)
    ensures Column(name) in KeysOf(CountColumns(names, counts)) <==> name in names
  {
    var cols := CountColumns(names, counts);
    if Column(name) in KeysOf(cols) {
      var i :| 0 <= i < |cols| && KeysOf(cols)[i] == Column(name);
      ColumnInjective(names[i], name);
    }
    if name in names {
      var i :| 0 <= i < |names| && names[i] == name;
      assert KeysOf(cols)[i] == Column(name);
    }
  }

  /** `env_data`: the seven environment columns in the fixed label order. */
  function EnvColumns(st: WorkspaceStats): Columns {
    CountColumns(EnvLabels, st.envDistribution)
  }

  /** `org_data`: one column per organisation of `orgs`. */
  function OrgColumns(st: WorkspaceStats, orgs: seq<string>): Columns {
    CountColumns(orgs, st.orgDistribution)
  }

  /** One row of the workspace details table. */
  datatype DetailRow = DetailRow(workspaceName: string, totalWorkloadCount: nat, counts: Columns)

  /** The detail row of workspace `p`, with the organisation columns `orgs`. */
  function DetailRowOf(p: string, st: WorkspaceStats, orgs: seq<string>): DetailRow {
    DetailRow(p, st.totalWorkloads, DictOf(EnvColumns(st) + OrgColumns(st, orgs)))
  }

  lemma EnvLabelsDistinct()
    ensures Distinct(EnvLabels)
  {
  }

  /** The first seven columns of every detail row are the environment columns, in the fixed label order. */
  lemma EnvColumnsFirst(p: string, st: WorkspaceStats, orgs: seq<string>)
    ensures |DetailRowOf(p, st, orgs).counts| >= |EnvLabels|
    ensures forall i :: 0 <= i < |EnvLabels| ==> DetailRowOf(p, st, orgs).counts[i].0 == Column(EnvLabels[i])
  {
    EnvLabelsDistinct();
    CountColumnsDistinct(EnvLabels, st.envDistribution);
    DictOfDistinct(EnvColumns(st));
    DictOfPrefix(EnvColumns(st), OrgColumns(st, orgs));
    var row := DetailRowOf(p, st, orgs);
    forall i | 0 <= i < |EnvLabels| ensures row.counts[i].0 == Column(EnvLabels[i]) {
      assert KeysOf(row.counts)[..|EnvLabels|][i] == KeysOf(EnvColumns(st))[i];
    }
  }

  /**
    The value of a count column: an organisation column holds that
    organisation's count; an environment column holds the environment's
    count, unless an organisation of the same name overwrites it; every
    count is 0 when absent. No other `workloads_in_` column exists.
   */
  lemma DetailColumn(p: string, st: WorkspaceStats, orgs: seq<string>, name: string, v: nat)
    requires Distinct(orgs)
    ensures (Column(name), v) in DetailRowOf(p, st, orgs).counts <==>
            if name in orgs then v == Get(st.orgDistribution, name)
            else name in EnvLabels && v == Get(st.envDistribution, name)
  {
    var env, org := EnvColumns(st), OrgColumns(st, orgs);
    DictOfLookup(env + org, Column(name), v);
    LastValueConcat(env, org, Column(name));
    CountColumnsKey(orgs, st.orgDistribution, name);
    CountColumnsKey(EnvLabels, st.envDistribution, name);
    if name in orgs {
      var i :| 0 <= i < |orgs| && orgs[i] == name;
      CountColumnsDistinct(orgs, st.orgDistribution);
      LastValueAt(org, i);
    } else if name in EnvLabels {
      var i :| 0 <= i < |EnvLabels| && EnvLabels[i] == name;
      EnvLabelsDistinct();
      CountColumnsDistinct(EnvLabels, st.envDistribution);
      LastValueAt(env, i);
    }
  }

  lemma CountColumnsNames(names: seq<string>, counts: map<string, nat>, k: string)
    requires k in KeysOf(CountColumns(names, counts))
    ensures StartsWith(k, ColumnPrefix)
  {
    var cols := CountColumns(names, counts);
    var i :| 0 <= i < |cols| && KeysOf(cols)[i] == k;
    assert k == Column(names[i]);
  }

  /** Every count column of a detail row is named `workloads_in_…`. */
  lemma DetailColumnNames(p: string, st: WorkspaceStats, orgs: seq<string>, c: (string, nat))
    requires c in DetailRowOf(p, st, orgs).counts
    ensures StartsWith(c.0, ColumnPrefix)
  {
    var env, org := EnvColumns(st), OrgColumns(st, orgs);
    var d := DictOf(env + org);
    DictOfIsDict(env + org);
    assert c.0 in KeysOf(d) by {
      var i :| 0 <= i < |d| && d[i] == c;
      assert KeysOf(d)[i] == c.0;
    }
    assert c.0 in KeysOf(env) + KeysOf(org) by {
      KeysOfConcat(env, org);
    }
    if c.0 in KeysOf(env) {
      CountColumnsNames(EnvLabels, st.envDistribution, c.0);
    } else {
      CountColumnsNames(orgs, st.orgDistribution, c.0);
    }
  }

  /** Without an organisation named like an environment label, a row is the environment columns followed by the organisation columns. */
  lemma NoClash(p: string, st: WorkspaceStats, orgs: seq<string>)
    requires Distinct(orgs)
    requires forall i :: 0 <= i < |orgs| ==> orgs[i] !in EnvLabels
    ensures DetailRowOf(p, st, orgs).counts == EnvColumns(st) + OrgColumns(st, orgs)
  {
    var env, org := EnvColumns(st), OrgColumns(st, orgs);
    EnvLabelsDistinct();
    CountColumnsDistinct(EnvLabels, st.envDistribution);
    CountColumnsDistinct(orgs, st.orgDistribution);
    KeysOfConcat(env, org);
    var keys := KeysOf(env + org);
    forall i, j | 0 <= i < j < |keys| ensures keys[i] != keys[j] {
      if i < |env| && j >= |env| {
        if keys[i] == keys[j] {
          ColumnInjective(EnvLabels[i], orgs[j - |env|]);
          assert false;
        }
      } else if i >= |env| {
        assert KeysOf(org)[i - |env|] != KeysOf(org)[j - |env|];
      } else {
        assert KeysOf(env)[i] != KeysOf(env)[j];
      }
    }
    DictOfDistinct(env + org);
  }

  /**
    An organisation named `prod` overwrites the `workloads_in_prod`
    environment column: with 3 `prod` workloads and 1 workload of the
    `prod` organisation, the column reads 1.
   */
  lemma ShadowedColumnExample(p: string, st: WorkspaceStats)
    requires st.envDistribution == map["prod" := 3] && st.orgDistribution == map["prod" := 1]
    ensures (Column("prod"), 1) in DetailRowOf(p, st, ["prod"]).counts
    ensures (Column("prod"), 3) !in DetailRowOf(p, st, ["prod"]).counts
  {
    DetailColumn(p, st, ["prod"], "prod", 1);
    DetailColumn(p, st, ["prod"], "prod", 3);
  }

  // ---------------------------------------------------------------------------
  // Sorting by workload count
  // ---------------------------------------------------------------------------

  predicate SortedByTotalDesc(rows: seq<DetailRow>) {
    forall i, j :: 0 <= i < j < |rows| ==> rows[i].totalWorkloadCount >= rows[j].totalWorkloadCount
  }

  function InsertByTotal(row: DetailRow, sorted: seq<DetailRow>): (r: seq<DetailRow>)
    requires SortedByTotalDesc(sorted)
    ensures SortedByTotalDesc(r)
    ensures multiset(r) == multiset(sorted) + multiset{row}
  {
    if |sorted| == 0 then [row]
    else if row.totalWorkloadCount >= sorted[0].totalWorkloadCount then [row] + sorted
    else
      var tail := InsertByTotal(row, sorted[1..]);
      assert sorted == [sorted[0]] + sorted[1..];
      TailBelowHead(row, sorted, tail);
      [sorted[0]] + tail
  }

  lemma TailBelowHead(row: DetailRow, sorted: seq<DetailRow>, tail: seq<DetailRow>)
    requires |sorted| > 0 && SortedByTotalDesc(sorted) && SortedByTotalDesc(tail)
    requires row.totalWorkloadCount < sorted[0].totalWorkloadCount
    requires multiset(tail) == multiset(sorted[1..]) + multiset{row}
    ensures SortedByTotalDesc([sorted[0]] + tail)
  {
    forall i | 0 <= i < |tail| ensures tail[i].totalWorkloadCount <= sorted[0].totalWorkloadCount {
      assert tail[i] in multiset(tail);
      if tail[i] != row {
        assert tail[i] in multiset(sorted[1..]);
        var j :| 0 <= j < |sorted[1..]| && sorted[1..][j] == tail[i];
        assert sorted[j + 1] == tail[i];
      }
    }
    var r := [sorted[0]] + tail;
    forall i, j | 0 <= i < j < |r| ensures r[i].totalWorkloadCount >= r[j].totalWorkloadCount {
      if i > 0 {
        assert r[i] == tail[i - 1] && r[j] == tail[j - 1];
      } else {
        assert r[j] == tail[j - 1];
      }
    }
  }

  /** `sort_values('total_workload_count', ascending=False)`: descending by total, a permutation of the rows. */
  function SortByTotalDesc(rows: seq<DetailRow>): (sorted: seq<DetailRow>)
    ensures SortedByTotalDesc(sorted)
    ensures multiset(sorted) == multiset(rows)
  {
    if |rows| == 0 then []
    else
      assert rows == [rows[0]] + rows[1..];
      InsertByTotal(rows[0], SortByTotalDesc(rows[1..]))
  }

  // ---------------------------------------------------------------------------
  // The workspace details table
  // ---------------------------------------------------------------------------

  /** The organisations of any of the workspaces `ps`. */
  ghost function OrgsOf(stats: map<string, WorkspaceStats>, ps: seq<string>): set<string> {
    set p, o | p in ps && p in stats && o in stats[p].orgDistribution :: o
  }

  /** `all_orgs`: every organisation of every workspace. */
  ghost function AllOrgs(stats: map<string, WorkspaceStats>): set<string> {
    set p, o | p in stats && o in stats[p].orgDistribution :: o
  }

  /** `workspace_details` before sorting: one row per workspace, in the order of the statistics table. */
  function Details(a: Analysis, orgs: seq<string>): (rows: seq<DetailRow>)
    requires forall p :: p in a.workspaces ==> p in a.stats
    ensures |rows| == |a.workspaces|
  {
    seq(|a.workspaces|, i requires 0 <= i < |a.workspaces| =>
      DetailRowOf(a.workspaces[i], a.stats[a.workspaces[i]], orgs))
  }

  /** `all_orgs`, gathered over the workspaces in table order. */
  method CollectOrgs(a: Analysis) returns (orgs: set<string>)
    requires forall p :: p in a.stats <==> p in a.workspaces
    ensures orgs == AllOrgs(a.stats)
  {
    orgs := {};
    var j := 0;
    while j < |a.workspaces|
      invariant 0 <= j <= |a.workspaces|
      invariant orgs == OrgsOf(a.stats, a.workspaces[..j])
    {
      var p := a.workspaces[j];
      assert forall q :: q in a.workspaces[..j + 1] <==> q in a.workspaces[..j] || q == p by {
        assert a.workspaces[..j + 1] == a.workspaces[..j] + [p];
      }
      orgs := orgs + a.stats[p].orgDistribution.Keys;
      j := j + 1;
    }
    assert a.workspaces[..|a.workspaces|] == a.workspaces;
  }

  /** The append loop of `export_results_to_zip`: one detail row per workspace. */
  method AppendDetails(a: Analysis, orgColumns: seq<string>) returns (details: seq<DetailRow>)
    requires forall p :: p in a.stats <==> p in a.workspaces
    ensures details == Details(a, orgColumns)
  {
    details := [];
    var j := 0;
    while j < |a.workspaces|
      invariant 0 <= j <= |a.workspaces|
      invariant |details| == j
      invariant forall i :: 0 <= i < j ==> details[i] == DetailRowOf(a.workspaces[i], a.stats[a.workspaces[i]], orgColumns)
    {
      var p := a.workspaces[j];
      details := details + [DetailRowOf(p, a.stats[p], orgColumns)];
      j := j + 1;
    }
  }

  /** Every row of a permutation of the details is the detail row of its workspace. */
  lemma RowsOfDetails(a: Analysis, orgColumns: seq<string>, table: seq<DetailRow>)
    requires forall p :: p in a.stats <==> p in a.workspaces
    requires multiset(table) == multiset(Details(a, orgColumns))
    ensures |table| == |a.workspaces|
    ensures forall r :: r in table ==>
              r.workspaceName in a.stats && r == DetailRowOf(r.workspaceName, a.stats[r.workspaceName], orgColumns)
  {
    var details := Details(a, orgColumns);
    assert |table| == |multiset(table)| == |details|;
    forall r | r in table
      ensures r.workspaceName in a.stats && r == DetailRowOf(r.workspaceName, a.stats[r.workspaceName], orgColumns)
    {
      assert r in multiset(details);
      var i :| 0 <= i < |details| && details[i] == r;
    }
  }

  /** The `workspace_name` column of a table. */
  function RowNames(rows: seq<DetailRow>): (names: seq<string>)
    ensures |names| == |rows|
    ensures forall i :: 0 <= i < |rows| ==> names[i] == rows[i].workspaceName
  {
    seq(|rows|, i requires 0 <= i < |rows| => rows[i].workspaceName)
  }

  /**
    The detail rows of distinct workspaces name each workspace once: the
    name column lists every workspace of the analysis, each exactly once.
   */
  lemma DetailNames(a: Analysis, orgColumns: seq<string>, table: seq<DetailRow>)
    requires forall p :: p in a.stats <==> p in a.workspaces
    requires Distinct(a.workspaces)
    requires multiset(table) == multiset(Details(a, orgColumns))
    requires forall r :: r in table ==>
               r.workspaceName in a.stats && r == DetailRowOf(r.workspaceName, a.stats[r.workspaceName], orgColumns)
    ensures Distinct(RowNames(table))
    ensures forall p :: p in RowNames(table) <==> p in a.workspaces
  {
    var details := Details(a, orgColumns);
    assert Distinct(details) by {
      forall i, j | 0 <= i < j < |details| ensures details[i] != details[j] {
        assert details[i].workspaceName == a.workspaces[i] && details[j].workspaceName == a.workspaces[j];
      }
    }
    PermutationDistinct(table, details);
    forall i, j | 0 <= i < j < |table| ensures RowNames(table)[i] != RowNames(table)[j] {
      assert table[i] in table && table[j] in table;
    }
    forall p | p in a.workspaces ensures p in RowNames(table) {
      var i :| 0 <= i < |a.workspaces| && a.workspaces[i] == p;
      assert details[i] in multiset(table);
      var k :| 0 <= k < |table| && table[k] == details[i];
      assert RowNames(table)[k] == p;
    }
    forall p | p in RowNames(table) ensures p in a.workspaces {
      var k :| 0 <= k < |table| && RowNames(table)[k] == p;
      assert table[k] in table;
    }
  }

  /**
    The details table of `export_results_to_zip`, corrected so that it is
    also built (empty) when there are no workspaces. The set of
    organisations is the same at every iteration of the source's loop, so
    it is computed once.
   */
  method WorkspaceDetails(a: Analysis) returns (table: seq<DetailRow>, orgColumns: seq<string>)
    requires forall p :: p in a.stats <==> p in a.workspaces
    ensures SortedListing(orgColumns, AllOrgs(a.stats))
    ensures SortedByTotalDesc(table)
    ensures multiset(table) == multiset(Details(a, orgColumns))
    ensures |table| == |a.workspaces|
    ensures forall r :: r in table ==>
              r.workspaceName in a.stats && r == DetailRowOf(r.workspaceName, a.stats[r.workspaceName], orgColumns)
  {
    var orgs := CollectOrgs(a);
    orgColumns := SortedNames(orgs);
    var details := AppendDetails(a, orgColumns);
    table := SortByTotalDesc(details);
    RowsOfDetails(a, orgColumns, table);
  }

  // ---------------------------------------------------------------------------
  // The empty table, as written
  // ---------------------------------------------------------------------------

  /** `KeyError`: the frame has no column of that name. */
  datatype KeyError = MissingColumn(column: string)

  /**
    `pd.DataFrame(workspace_details).sort_values('total_workload_count', ...)`
    as written: a frame built from an empty list has no columns at all, so
    sorting it by a column raises.
   */
  function SortDetailsAsWritten(details: seq<DetailRow>): (r: Result<seq<DetailRow>, KeyError>)
    ensures r.Failure? <==> details == []
    ensures r.Failure? ==> r.error == MissingColumn("total_workload_count")
    ensures r.Success? ==> SortedByTotalDesc(r.value) && multiset(r.value) == multiset(details)
  {
    if |details| == 0 then Failure(MissingColumn("total_workload_count")) else Success(SortByTotalDesc(details))
  }

  /** A services table without any `-runtime` service has no workspace. */
  lemma {:induction false} NoRuntimeNoWorkspaces(rows: seq<ServiceRow>)
    requires forall k :: 0 <= k < |rows| ==> rows[k].service.None? || !IsRuntime(rows[k].service.value)
    ensures Discovered(rows) == []
    decreases |rows|
  {
    if |rows| > 0 {
      NoRuntimeNoWorkspaces(rows[..|rows| - 1]);
    }
  }

  /**
    Hence, as written, the report of such a table cannot be produced: its
    details are empty and sorting them raises.
   */
  lemma NoRuntimeReportFails(rows: seq<ServiceRow>, a: Analysis)
    requires forall k :: 0 <= k < |rows| ==> rows[k].service.None? || !IsRuntime(rows[k].service.value)
    requires a.workspaces == Discovered(rows)
    requires forall p :: p in a.stats <==> p in a.workspaces
    ensures a.workspaces == []
    ensures SortDetailsAsWritten(Details(a, [])).Failure?
  {
    NoRuntimeNoWorkspaces(rows);
  }

  /** The corrected sort gives the empty table for no rows, and agrees with the source otherwise. */
  lemma SortCorrected(details: seq<DetailRow>)
    ensures SortByTotalDesc(details) == [] <==> details == []
    ensures details != [] ==> SortDetailsAsWritten(details) == Success(SortByTotalDesc(details))
  {
    if details != [] {
      assert details[0] in multiset(SortByTotalDesc(details));
    }
  }

  // ---------------------------------------------------------------------------
  // The whole report
  // ---------------------------------------------------------------------------

  /** The metric summary: developers, workspaces and workloads. */
  datatype Metrics = Metrics(uniqueDevelopers: nat, uniqueWorkspaces: nat, totalWorkloads: nat)

  /** `monthly_df`: one `(month, workload_count)` row per month, January first. */
  function MonthlyTable(counts: map<string, nat>): (t: seq<(string, nat)>)
    requires forall n :: n in MonthNames ==> n in counts
    ensures KeysOf(t) == MonthNames
    ensures forall i :: 0 <= i < |t| ==> t[i].1 == counts[MonthNames[i]]
  {
    var t := seq(|MonthNames|, i requires 0 <= i < |MonthNames| => (MonthNames[i], counts[MonthNames[i]]));
    assert KeysOf(t) == MonthNames;
    t
  }

  /**
    The three tables written into the report archive, with the organisation
    columns of the details table and the per-workspace statistics it is
    built from.
   */
  datatype Tables = Tables(summary: Metrics, details: seq<DetailRow>, orgColumns: seq<string>, monthly: seq<(string, nat)>,
                           stats: map<string, WorkspaceStats>)

  /**
    `main` from the loaded tables to the report: the developer count, the
    workspace analysis, the monthly aggregation (which raises on an
    unreadable creation date) and the report tables.
   */
  method BuildReport(emails: seq<string>, rows: seq<ServiceRow>) returns (r: Result<Tables, DateParseError>)
    ensures r.Failure? <==> MonthlyCreations(rows, Discovered(rows)).Failure?
    ensures r.Success? ==>
              r.value.summary == Metrics(UniqueDevelopers(emails), |RuntimePrefixes(rows)|,
                                         |AllWorkloads(rows, Discovered(rows))|)
    ensures r.Success? ==> r.value.monthly == MonthlyTable(MonthlyCreations(rows, Discovered(rows)).value)
    ensures r.Success? ==> SortedByTotalDesc(r.value.details) && |r.value.details| == |RuntimePrefixes(rows)|
    ensures r.Success? ==> Distinct(RowNames(r.value.details))
    ensures r.Success? ==> forall p :: p in RowNames(r.value.details) <==> p in Discovered(rows)
    ensures r.Success? ==>
              forall i :: 0 <= i < |r.value.details| ==>
                r.value.details[i].totalWorkloadCount == |Workloads(rows, Discovered(rows), r.value.details[i].workspaceName)|
    ensures r.Success? ==> forall p :: p in r.value.stats <==> p in Discovered(rows)
    ensures r.Success? ==> forall p :: p in r.value.stats ==> Summarises(r.value.stats[p], rows, Discovered(rows), p)
    ensures r.Success? ==> SortedListing(r.value.orgColumns, AllOrgs(r.value.stats))
    ensures r.Success? ==>
              forall row :: row in r.value.details ==>
                row.workspaceName in r.value.stats &&
                row == DetailRowOf(row.workspaceName, r.value.stats[row.workspaceName], r.value.orgColumns)
  {
    var developers := UniqueDevelopers(emails);
    var a := AnalyzeServices(rows);
    var monthly := MonthlyCreations(rows, a.workspaces);
    if monthly.Failure? {
      return Failure(monthly.error);
    }
    var metrics := Metrics(developers, a.workspaceCount, a.totalWorkloads);
    var table, orgColumns := WorkspaceDetails(a);
    DiscoveredDistinct(rows);
    DetailNames(a, orgColumns, table);
    forall i | 0 <= i < |table|
      ensures table[i].totalWorkloadCount == |Workloads(rows, a.workspaces, table[i].workspaceName)|
    {
      assert table[i] in table;
    }
    r := Success(Tables(metrics, table, orgColumns, MonthlyTable(monthly.value), a.stats));
  }
}
