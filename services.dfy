/**
  The workspace/workload classifier of the usage reporter (`analyze_services`).

  A workspace is announced by a service named `P-runtime`; its workloads are
  the other services whose name starts with `P-`. The classifier makes two
  passes over the services table: the first registers the prefixes in the
  order of their first `-runtime` service, the second gives every service to
  the FIRST registered prefix it starts with, and records it in that
  workspace's workload set and in its per-environment and per-organisation
  subsets. A last loop turns the sets into counts and sorted name lists.

  The specification of what the passes compute is given by the ghost
  functions `Discovered`, `Workloads`, `EnvWorkloads` and `OrgWorkloads`,
  stated over the whole table; `AnalyzeServices` is proved against them.
 */
module Services {
  import opened Wrappers
  import opened Text
  import opened Classifiers

  type MonthNumber = m: int | 1 <= m <= 12 witness 1

  /**
    The `created_at` cell of a row as `pd.to_datetime` reads it: a date
    (only its year and month matter here), a missing value (NaT), or text
    that cannot be read as a date.
   */
  datatype CreatedAt = At(year: int, month: MonthNumber) | NotATime | Unparseable

  /** One row of the services table; a missing cell is `None`. */
  datatype ServiceRow = ServiceRow(service: Option<string>, repository: Option<string>, createdAt: CreatedAt)

  const RuntimeSuffix: string := "-runtime"

  predicate IsRuntime(s: string) {
    EndsWith(s, RuntimeSuffix)
  }

  /** `service[:-8]` for a service ending in `-runtime`. */
  function RuntimePrefix(s: string): (prefix: string)
    requires IsRuntime(s)
    ensures s == prefix + RuntimeSuffix
  {
    s[..|s| - 8]
  }

  /** Python's truth value of an optional string: present and not empty. */
  predicate Truthy(o: Option<string>) {
    o.Some? && o.value != ""
  }

  // ---------------------------------------------------------------------------
  // First pass: discovery of workspaces
  // ---------------------------------------------------------------------------

  /** One step of the first pass: a `-runtime` service registers its prefix, at the end, if it is new. */
  function Register(prefixes: seq<string>, row: ServiceRow): seq<string> {
    match row.service
    case None => prefixes
    case Some(s) =>
      if IsRuntime(s) && RuntimePrefix(s) !in prefixes then prefixes + [RuntimePrefix(s)] else prefixes
  }

  /** The workspace prefixes after the first pass over `rows`, in the order a Python dict keeps its keys. */
  function Discovered(rows: seq<ServiceRow>): seq<string>
    decreases |rows|
  {
    if |rows| == 0 then [] else Register(Discovered(rows[..|rows| - 1]), rows[|rows| - 1])
  }

  /** Discovery of one more row is one more registration step. */
  lemma DiscoveredSnoc(rows: seq<ServiceRow>, row: ServiceRow)
    ensures Discovered(rows + [row]) == Register(Discovered(rows), row)
  {
    assert (rows + [row])[..|rows|] == rows;
  }

  /** No prefix is registered twice. */
  lemma {:induction false} DiscoveredDistinct(rows: seq<ServiceRow>)
    ensures Distinct(Discovered(rows))
    decreases |rows|
  {
    if |rows| > 0 {
      DiscoveredDistinct(rows[..|rows| - 1]);
      var before := Discovered(rows[..|rows| - 1]);
      var row := rows[|rows| - 1];
      if row.service.Some? && IsRuntime(row.service.value) && RuntimePrefix(row.service.value) !in before {
        DistinctSnoc(before, RuntimePrefix(row.service.value));
      }
    }
  }

  /** The distinct `s[:-8]` over the non-null services `s` that end in `-runtime`. */
  ghost function RuntimePrefixes(rows: seq<ServiceRow>): set<string> {
    set r | r in rows && r.service.Some? && IsRuntime(r.service.value) :: RuntimePrefix(r.service.value)
  }

  lemma RuntimePrefixesStep(rows: seq<ServiceRow>)
    requires |rows| > 0
    ensures var last := rows[|rows| - 1];
            RuntimePrefixes(rows) ==
              RuntimePrefixes(rows[..|rows| - 1]) +
              (if last.service.Some? && IsRuntime(last.service.value) then {RuntimePrefix(last.service.value)} else {})
  {
    assert rows == rows[..|rows| - 1] + [rows[|rows| - 1]];
  }

  /** A prefix is discovered exactly when some non-null service is that prefix followed by `-runtime`. */
  lemma {:induction false} DiscoveredMembers(rows: seq<ServiceRow>)
    ensures forall p :: p in Discovered(rows) <==> p in RuntimePrefixes(rows)
    decreases |rows|
  {
    if |rows| > 0 {
      DiscoveredMembers(rows[..|rows| - 1]);
      RuntimePrefixesStep(rows);
    }
  }

  /** The workspaces are exactly the distinct runtime prefixes, so their number is the number of such prefixes. */
  lemma DiscoveredExactly(rows: seq<ServiceRow>)
    ensures forall p :: p in Discovered(rows) <==> p in RuntimePrefixes(rows)
    ensures |Discovered(rows)| == |RuntimePrefixes(rows)|
  {
    DiscoveredMembers(rows);
    DiscoveredDistinct(rows);
    var ps := Discovered(rows);
    DistinctCardinality(ps);
    assert (set p | p in ps) == RuntimePrefixes(rows);
  }

  /** Discovery only appends: the prefixes found in a leading part of the table stay at the front. */
  lemma {:induction false} DiscoveredGrows(rows: seq<ServiceRow>, n: nat)
    requires n <= |rows|
    ensures |Discovered(rows[..n])| <= |Discovered(rows)|
    ensures Discovered(rows)[..|Discovered(rows[..n])|] == Discovered(rows[..n])
    decreases |rows| - n
  {
    if n < |rows| {
      DiscoveredGrows(rows[..|rows| - 1], n);
      assert rows[..|rows| - 1][..n] == rows[..n];
    } else {
      assert rows[..n] == rows;
    }
  }

  /**
    Discovery order is the order of first occurrence: when the first runtime
    row for `q` comes after a runtime row for `p`, then `p` is registered
    before `q`.
   */
  lemma DiscoveryOrder(rows: seq<ServiceRow>, k: nat, l: nat, p: string, q: string)
    requires k < l < |rows|
    requires rows[k].service.Some? && IsRuntime(rows[k].service.value) && RuntimePrefix(rows[k].service.value) == p
    requires rows[l].service.Some? && IsRuntime(rows[l].service.value) && RuntimePrefix(rows[l].service.value) == q
    requires forall m :: 0 <= m < l && rows[m].service.Some? && IsRuntime(rows[m].service.value) ==>
               RuntimePrefix(rows[m].service.value) != q
    ensures p in Discovered(rows) && q in Discovered(rows)
    ensures exists i, j :: 0 <= i < j < |Discovered(rows)| && Discovered(rows)[i] == p && Discovered(rows)[j] == q
  {
    var ps := Discovered(rows);
    var early := Discovered(rows[..k + 1]);
    DiscoveredExactly(rows);
    DiscoveredExactly(rows[..k + 1]);
    DiscoveredGrows(rows, k + 1);
    assert rows[..k + 1][k] == rows[k];
    assert p in RuntimePrefixes(rows[..k + 1]);
    assert q !in RuntimePrefixes(rows[..k + 1]);
    assert rows[l] in rows;
    assert p in ps && q in ps;
    var i :| 0 <= i < |early| && early[i] == p;
    var j :| 0 <= j < |ps| && ps[j] == q;
    assert ps[i] == p;
    if j < |early| {
      assert false;
    }
  }

  // ---------------------------------------------------------------------------
  // Second pass: assignment of services to workspaces
  // ---------------------------------------------------------------------------

  /** `any(s.startswith(w + '-') for w in workspaces)`. */
  predicate MatchesSome(prefixes: seq<string>, s: string) {
    exists k :: 0 <= k < |prefixes| && StartsWith(s, prefixes[k] + "-")
  }

  /** The first prefix, in discovery order, that `s` starts with followed by `-`. */
  function FirstMatch(prefixes: seq<string>, s: string): (owner: Option<string>)
    ensures owner.Some? ==> owner.value in prefixes && StartsWith(s, owner.value + "-")
    ensures owner.None? <==> !MatchesSome(prefixes, s)
  {
    if |prefixes| == 0 then None
    else if StartsWith(s, prefixes[0] + "-") then Some(prefixes[0])
    else
      var owner := FirstMatch(prefixes[1..], s);
      assert MatchesSome(prefixes, s) ==> MatchesSome(prefixes[1..], s) by {
        if MatchesSome(prefixes, s) {
          var k :| 0 <= k < |prefixes| && StartsWith(s, prefixes[k] + "-");
          assert prefixes[1..][k - 1] == prefixes[k];
        }
      }
      owner
  }

  /** The owner is the prefix at the first index that matches. */
  lemma {:induction false} FirstMatchAt(prefixes: seq<string>, s: string, k: nat)
    requires k < |prefixes| && StartsWith(s, prefixes[k] + "-")
    requires forall j :: 0 <= j < k ==> !StartsWith(s, prefixes[j] + "-")
    ensures FirstMatch(prefixes, s) == Some(prefixes[k])
    decreases k
  {
    if k > 0 {
      FirstMatchAt(prefixes[1..], s, k - 1);
    }
  }

  /** `row` is a workload of workspace `p`: its service's first matching prefix is `p`, and it is not a runtime service. */
  predicate IsWorkloadOf(prefixes: seq<string>, row: ServiceRow, p: string) {
    row.service.Some? && FirstMatch(prefixes, row.service.value) == Some(p) && !IsRuntime(row.service.value)
  }

  /** What the second pass accumulates for one workspace (`workloads`, `env_workloads`, `org_workloads`). */
  datatype WorkspaceData = WorkspaceData(
    workloads: set<string>,
    envWorkloads: map<string, set<string>>,
    orgWorkloads: map<string, set<string>>)

  const EmptyWorkspace := WorkspaceData({}, map[], map[])

  /** `d[key].add(s)` on a `defaultdict(set)`. */
  function AddTo(m: map<string, set<string>>, key: string, s: string): map<string, set<string>> {
    m[key := (if key in m then m[key] else {}) + {s}]
  }

  /** Recording one workload: the name, then its environment and organisation when they are truthy. */
  function AddWorkload(d: WorkspaceData, s: string, repository: Option<string>): WorkspaceData {
    var env := GetEnvironment(s);
    var org := GetGithubOrg(repository);
    WorkspaceData(
      d.workloads + {s},
      if Truthy(env) then AddTo(d.envWorkloads, env.value, s) else d.envWorkloads,
      if Truthy(org) then AddTo(d.orgWorkloads, org.value, s) else d.orgWorkloads)
  }

  /** The workload names of workspace `p`. */
  ghost function Workloads(rows: seq<ServiceRow>, prefixes: seq<string>, p: string): set<string> {
    set r | r in rows && IsWorkloadOf(prefixes, r, p) :: r.service.value
  }

  /** The environment of a row's service, if it has one. */
  function EnvOfRow(r: ServiceRow): Option<string> {
    if r.service.Some? then GetEnvironment(r.service.value) else None
  }

  /** The organisation of a row's repository. */
  function OrgOfRow(r: ServiceRow): Option<string> {
    GetGithubOrg(r.repository)
  }

  /** The workloads of `p` whose row carries the truthy label `k`. */
  ghost function Grouped(rows: seq<ServiceRow>, prefixes: seq<string>, p: string, labelOf: ServiceRow -> Option<string>, k: string): set<string> {
    set r | r in rows && IsWorkloadOf(prefixes, r, p) && Truthy(labelOf(r)) && labelOf(r).value == k :: r.service.value
  }

  /** The truthy labels of the workloads of `p`. */
  ghost function LabelsSeen(rows: seq<ServiceRow>, prefixes: seq<string>, p: string, labelOf: ServiceRow -> Option<string>): set<string> {
    set r | r in rows && IsWorkloadOf(prefixes, r, p) && Truthy(labelOf(r)) :: labelOf(r).value
  }

  /** A `defaultdict(set)` filled by the second pass: the workloads of `p` grouped by their truthy labels. */
  ghost function GroupMap(rows: seq<ServiceRow>, prefixes: seq<string>, p: string, labelOf: ServiceRow -> Option<string>): map<string, set<string>> {
    map k | k in LabelsSeen(rows, prefixes, p, labelOf) :: Grouped(rows, prefixes, p, labelOf, k)
  }

  /** The workloads of `p` whose name carries environment `env`. */
  ghost function EnvWorkloads(rows: seq<ServiceRow>, prefixes: seq<string>, p: string, env: string): set<string> {
    Grouped(rows, prefixes, p, EnvOfRow, env)
  }

  /** The environments recorded for `p`. */
  ghost function EnvsSeen(rows: seq<ServiceRow>, prefixes: seq<string>, p: string): set<string> {
    LabelsSeen(rows, prefixes, p, EnvOfRow)
  }

  /** The workloads of `p` that occur in some row whose repository belongs to `org`. */
  ghost function OrgWorkloads(rows: seq<ServiceRow>, prefixes: seq<string>, p: string, org: string): set<string> {
    Grouped(rows, prefixes, p, OrgOfRow, org)
  }

  /** The organisations recorded for `p`. */
  ghost function OrgsSeen(rows: seq<ServiceRow>, prefixes: seq<string>, p: string): set<string> {
    LabelsSeen(rows, prefixes, p, OrgOfRow)
  }

  /** `d` holds exactly what the second pass records for workspace `p` over `rows`. */
  ghost predicate Describes(d: WorkspaceData, rows: seq<ServiceRow>, prefixes: seq<string>, p: string) {
    && d.workloads == Workloads(rows, prefixes, p)
    && d.envWorkloads == GroupMap(rows, prefixes, p, EnvOfRow)
    && d.orgWorkloads == GroupMap(rows, prefixes, p, OrgOfRow)
  }

  lemma DescribesEmpty(rows: seq<ServiceRow>, prefixes: seq<string>, p: string)
    ensures Describes(EmptyWorkspace, rows[..0], prefixes, p)
  {
    assert rows[..0] == [];
    assert GroupMap(rows[..0], prefixes, p, EnvOfRow) == map[];
    assert GroupMap(rows[..0], prefixes, p, OrgOfRow) == map[];
  }

  /** Splitting off the last row of a leading part of the table. */
  lemma InPrefixStep(rows: seq<ServiceRow>, i: nat)
    requires i < |rows|
    ensures forall r :: r in rows[..i + 1] <==> r in rows[..i] || r == rows[i]
  {
    assert rows[..i + 1] == rows[..i] + [rows[i]];
  }

  lemma WorkloadsStep(rows: seq<ServiceRow>, prefixes: seq<string>, p: string, i: nat)
    requires i < |rows|
    ensures Workloads(rows[..i + 1], prefixes, p) ==
              Workloads(rows[..i], prefixes, p) +
              (if IsWorkloadOf(prefixes, rows[i], p) then {rows[i].service.value} else {})
  {
    InPrefixStep(rows, i);
  }

  lemma GroupedStep(rows: seq<ServiceRow>, prefixes: seq<string>, p: string, labelOf: ServiceRow -> Option<string>, k: string, i: nat)
    requires i < |rows|
    ensures Grouped(rows[..i + 1], prefixes, p, labelOf, k) ==
              Grouped(rows[..i], prefixes, p, labelOf, k) +
              (if IsWorkloadOf(prefixes, rows[i], p) && Truthy(labelOf(rows[i])) && labelOf(rows[i]).value == k
               then {rows[i].service.value} else {})
  {
    InPrefixStep(rows, i);
  }

  lemma LabelsSeenStep(rows: seq<ServiceRow>, prefixes: seq<string>, p: string, labelOf: ServiceRow -> Option<string>, i: nat)
    requires i < |rows|
    ensures LabelsSeen(rows[..i + 1], prefixes, p, labelOf) ==
              LabelsSeen(rows[..i], prefixes, p, labelOf) +
              (if IsWorkloadOf(prefixes, rows[i], p) && Truthy(labelOf(rows[i])) then {labelOf(rows[i]).value} else {})
  {
    InPrefixStep(rows, i);
  }

  /** A label that was never recorded has no workloads. */
  lemma GroupedEmpty(rows: seq<ServiceRow>, prefixes: seq<string>, p: string, labelOf: ServiceRow -> Option<string>, k: string)
    requires k !in LabelsSeen(rows, prefixes, p, labelOf)
    ensures Grouped(rows, prefixes, p, labelOf, k) == {}
  {
    if r :| r in rows && IsWorkloadOf(prefixes, r, p) && Truthy(labelOf(r)) && labelOf(r).value == k {
      assert false;
    }
  }

  /**
    A map of sets that equals `before` still equals the next specification
    `after` once `s` is added under `key` (when `add` holds): `after` has
    the key if it is new, and every set grows by `s` exactly under `key`.
   */
  lemma TrackStep(before: map<string, set<string>>, after: map<string, set<string>>, add: bool, key: string, s: string)
    requires after.Keys == before.Keys + (if add then {key} else {})
    requires forall k :: k in after ==> after[k] == (if k in before then before[k] else {}) + (if add && k == key then {s} else {})
    ensures after == if add then AddTo(before, key, s) else before
  {
    var r := if add then AddTo(before, key, s) else before;
    assert r.Keys == after.Keys;
    forall k | k in r ensures r[k] == after[k] {
    }
  }

  /** The grouped map after one row: the row's service is added under its label when it is a truthy-labelled workload. */
  lemma GroupMapStep(rows: seq<ServiceRow>, prefixes: seq<string>, p: string, labelOf: ServiceRow -> Option<string>, i: nat)
    requires i < |rows|
    ensures GroupMap(rows[..i + 1], prefixes, p, labelOf) ==
              if IsWorkloadOf(prefixes, rows[i], p) && Truthy(labelOf(rows[i]))
              then AddTo(GroupMap(rows[..i], prefixes, p, labelOf), labelOf(rows[i]).value, rows[i].service.value)
              else GroupMap(rows[..i], prefixes, p, labelOf)
  {
    var row := rows[i];
    var add := IsWorkloadOf(prefixes, row, p) && Truthy(labelOf(row));
    var key := if add then labelOf(row).value else "";
    var name := if add then row.service.value else "";
    var before, after := GroupMap(rows[..i], prefixes, p, labelOf), GroupMap(rows[..i + 1], prefixes, p, labelOf);
    LabelsSeenStep(rows, prefixes, p, labelOf, i);
    forall k | k in after
      ensures after[k] == (if k in before then before[k] else {}) + (if add && k == key then {name} else {})
    {
      GroupedStep(rows, prefixes, p, labelOf, k, i);
      if k !in before {
        GroupedEmpty(rows[..i], prefixes, p, labelOf, k);
      }
    }
    TrackStep(before, after, add, key, name);
  }

  /** One row of the second pass: the owning workspace records the row, every other workspace is unchanged. */
  lemma DescribesStep(d: WorkspaceData, rows: seq<ServiceRow>, prefixes: seq<string>, p: string, i: nat)
    requires i < |rows|
    requires Describes(d, rows[..i], prefixes, p)
    ensures Describes(
              if IsWorkloadOf(prefixes, rows[i], p) then AddWorkload(d, rows[i].service.value, rows[i].repository) else d,
              rows[..i + 1], prefixes, p)
  {
    WorkloadsStep(rows, prefixes, p, i);
    GroupMapStep(rows, prefixes, p, EnvOfRow, i);
    GroupMapStep(rows, prefixes, p, OrgOfRow, i);
  }

  // ---------------------------------------------------------------------------
  // Statistics per workspace and the whole analysis
  // ---------------------------------------------------------------------------

  /** The statistics `analyze_services` reports for one workspace. */
  datatype WorkspaceStats = WorkspaceStats(
    totalWorkloads: nat,
    workloadNames: seq<string>,
    envDistribution: map<string, nat>,
    environments: seq<string>,
    orgDistribution: map<string, nat>,
    organizations: seq<string>)

  /**
    The four results of `analyze_services`: the number of workspaces, the
    total number of workloads, the statistics per workspace, and the
    workspace prefixes in discovery order (the keys of the raw table, which
    is all that the monthly aggregation reads of it).
   */
  datatype Analysis = Analysis(
    workspaceCount: nat,
    totalWorkloads: nat,
    stats: map<string, WorkspaceStats>,
    workspaces: seq<string>)

  /** `{key: len(group) for key, group in groups.items()}` */
  function Sizes(groups: map<string, set<string>>): (sizes: map<string, nat>)
    ensures sizes.Keys == groups.Keys
    ensures forall k :: k in sizes ==> sizes[k] == |groups[k]|
  {
    map k | k in groups :: |groups[k]|
  }

  /**
    `dist` counts the workloads of `p` per truthy label and `keys` lists those
    labels sorted: one count per label seen, the size of its workload set.
   */
  ghost predicate LabelSummary(dist: map<string, nat>, keys: seq<string>, rows: seq<ServiceRow>, prefixes: seq<string>, p: string,
                               labelOf: ServiceRow -> Option<string>) {
    && dist.Keys == LabelsSeen(rows, prefixes, p, labelOf)
    && (forall k :: k in dist ==> dist[k] == |Grouped(rows, prefixes, p, labelOf, k)|)
    && SortedListing(keys, LabelsSeen(rows, prefixes, p, labelOf))
  }

  /** `st` is what `analyze_services` reports for workspace `p` of `rows`. */
  ghost predicate Summarises(st: WorkspaceStats, rows: seq<ServiceRow>, prefixes: seq<string>, p: string) {
    && st.totalWorkloads == |Workloads(rows, prefixes, p)|
    && SortedListing(st.workloadNames, Workloads(rows, prefixes, p))
    && LabelSummary(st.envDistribution, st.environments, rows, prefixes, p, EnvOfRow)
    && LabelSummary(st.orgDistribution, st.organizations, rows, prefixes, p, OrgOfRow)
  }

  /** The sum of the workload counts of the workspaces in `qs`. */
  ghost function SumOfWorkloads(rows: seq<ServiceRow>, prefixes: seq<string>, qs: seq<string>): nat
    decreases |qs|
  {
    if |qs| == 0 then 0
    else SumOfWorkloads(rows, prefixes, qs[..|qs| - 1]) + |Workloads(rows, prefixes, qs[|qs| - 1])|
  }

  /** Every distinct workload name of the table, whatever its workspace. */
  ghost function AllWorkloads(rows: seq<ServiceRow>, prefixes: seq<string>): set<string> {
    set r | r in rows && r.service.Some? && MatchesSome(prefixes, r.service.value) && !IsRuntime(r.service.value) ::
            r.service.value
  }

  /** The first pass: an empty record for every prefix `P` of a `P-runtime` service, in discovery order. */
  method DiscoverWorkspaces(rows: seq<ServiceRow>) returns (workspaces: seq<string>, data: map<string, WorkspaceData>)
    ensures workspaces == Discovered(rows)
    ensures forall p :: p in data <==> p in workspaces
    ensures forall p :: p in data ==> data[p] == EmptyWorkspace
  {
    workspaces := [];
    data := map[];
    var i := 0;
    while i < |rows|
      invariant 0 <= i <= |rows|
      invariant workspaces == Discovered(rows[..i])
      invariant forall p :: p in data <==> p in workspaces
      invariant forall p :: p in data ==> data[p] == EmptyWorkspace
    {
      var service := rows[i].service;
      if service.Some? && IsRuntime(service.value) {
        var prefix := RuntimePrefix(service.value);
        if prefix !in data {
          workspaces := workspaces + [prefix];
        }
        data := data[prefix := EmptyWorkspace];
      }
      assert rows[..i + 1][..i] == rows[..i];
      i := i + 1;
    }
    assert rows[..|rows|] == rows;
  }

  /**
    One row of the second pass: the service goes to the first workspace whose
    prefix it starts with, and is recorded there unless it is a runtime
    service; every other workspace keeps its record.
   */
  method AssignService(workspaces: seq<string>, data: map<string, WorkspaceData>, row: ServiceRow)
    returns (data': map<string, WorkspaceData>)
    requires forall p :: p in data <==> p in workspaces
    ensures data'.Keys == data.Keys
    ensures forall p :: p in data' ==>
              data'[p] == if IsWorkloadOf(workspaces, row, p)
                          then AddWorkload(data[p], row.service.value, row.repository) else data[p]
  {
    data' := data;
    if row.service.Some? {
      var service := row.service.value;
      var k := 0;
      while k < |workspaces|
        invariant 0 <= k <= |workspaces|
        invariant forall j :: 0 <= j < k ==> !StartsWith(service, workspaces[j] + "-")
      {
        var prefix := workspaces[k];
        if StartsWith(service, prefix + "-") {
          if !IsRuntime(service) {
            data' := data[prefix := AddWorkload(data[prefix], service, row.repository)];
          }
          FirstMatchAt(workspaces, service, k);
          return;
        }
        k := k + 1;
      }
      assert FirstMatch(workspaces, service).None?;
    }
  }

  /** The second pass over the whole table. */
  method AssignWorkloads(rows: seq<ServiceRow>, workspaces: seq<string>, data: map<string, WorkspaceData>)
    returns (data': map<string, WorkspaceData>)
    requires forall p :: p in data <==> p in workspaces
    requires forall p :: p in data ==> data[p] == EmptyWorkspace
    ensures forall p :: p in data' <==> p in workspaces
    ensures forall p :: p in data' ==> Describes(data'[p], rows, workspaces, p)
  {
    data' := data;
    forall p | p in data' ensures Describes(data'[p], rows[..0], workspaces, p) {
      DescribesEmpty(rows, workspaces, p);
    }
    var i := 0;
    while i < |rows|
      invariant 0 <= i <= |rows|
      invariant forall p :: p in data' <==> p in workspaces
      invariant forall p :: p in data' ==> Describes(data'[p], rows[..i], workspaces, p)
    {
      var before := data';
      data' := AssignService(workspaces, before, rows[i]);
      forall p | p in data' ensures Describes(data'[p], rows[..i + 1], workspaces, p) {
        DescribesStep(before[p], rows, workspaces, p, i);
      }
      i := i + 1;
    }
    assert rows[..|rows|] == rows;
  }

  /** The statistics of one workspace from its record. */
  method SummariseWorkspace(rows: seq<ServiceRow>, workspaces: seq<string>, p: string, d: WorkspaceData)
    returns (st: WorkspaceStats)
    requires Describes(d, rows, workspaces, p)
    ensures Summarises(st, rows, workspaces, p)
  {
    var envDistribution := Sizes(d.envWorkloads);
    var orgDistribution := Sizes(d.orgWorkloads);
    var workloadNames := SortedNames(d.workloads);
    var environments := SortedNames(envDistribution.Keys);
    var organizations := SortedNames(orgDistribution.Keys);
    st := WorkspaceStats(|d.workloads|, workloadNames, envDistribution, environments, orgDistribution, organizations);
    GroupStats(rows, workspaces, p, EnvOfRow, d.envWorkloads, envDistribution, environments);
    GroupStats(rows, workspaces, p, OrgOfRow, d.orgWorkloads, orgDistribution, organizations);
  }

  /** The sizes of a grouped map and their sorted keys: one count per recorded label, the size of its workload set. */
  lemma GroupStats(rows: seq<ServiceRow>, prefixes: seq<string>, p: string, labelOf: ServiceRow -> Option<string>,
                   groups: map<string, set<string>>, sizes: map<string, nat>, keys: seq<string>)
    requires groups == GroupMap(rows, prefixes, p, labelOf)
    requires sizes == Sizes(groups) && SortedListing(keys, sizes.Keys)
    ensures LabelSummary(sizes, keys, rows, prefixes, p, labelOf)
  {
    assert sizes.Keys == LabelsSeen(rows, prefixes, p, labelOf);
  }

  /** The last loop: statistics per workspace and the running total of workloads. */
  method SummariseAll(rows: seq<ServiceRow>, workspaces: seq<string>, data: map<string, WorkspaceData>)
    returns (stats: map<string, WorkspaceStats>, total: nat)
    requires forall p :: p in data <==> p in workspaces
    requires forall p :: p in data ==> Describes(data[p], rows, workspaces, p)
    ensures forall p :: p in stats <==> p in workspaces
    ensures forall p :: p in stats ==> Summarises(stats[p], rows, workspaces, p)
    ensures total == SumOfWorkloads(rows, workspaces, workspaces)
  {
    stats := map[];
    total := 0;
    var j := 0;
    while j < |workspaces|
      invariant 0 <= j <= |workspaces|
      invariant forall p :: p in stats <==> p in workspaces[..j]
      invariant forall p :: p in stats ==> Summarises(stats[p], rows, workspaces, p)
      invariant total == SumOfWorkloads(rows, workspaces, workspaces[..j])
    {
      var prefix := workspaces[j];
      var st := SummariseWorkspace(rows, workspaces, prefix, data[prefix]);
      stats := stats[prefix := st];
      total := total + st.totalWorkloads;
      assert workspaces[..j + 1][..j] == workspaces[..j];
      j := j + 1;
    }
    assert workspaces[..|workspaces|] == workspaces;
  }

  /** `analyze_services(services_df)`. */
  method AnalyzeServices(rows: seq<ServiceRow>) returns (a: Analysis)
    ensures a.workspaces == Discovered(rows)
    ensures a.workspaceCount == |a.workspaces| == |RuntimePrefixes(rows)|
    ensures forall p :: p in a.stats <==> p in a.workspaces
    ensures forall p :: p in a.stats ==> Summarises(a.stats[p], rows, a.workspaces, p)
    ensures a.totalWorkloads == SumOfWorkloads(rows, a.workspaces, a.workspaces)
    ensures a.totalWorkloads == |AllWorkloads(rows, a.workspaces)|
  {
    var workspaces, empty := DiscoverWorkspaces(rows);
    var data := AssignWorkloads(rows, workspaces, empty);
    var stats, total := SummariseAll(rows, workspaces, data);
    DiscoveredExactly(rows);
    DiscoveredDistinct(rows);
    TotalIsDistinctWorkloads(rows, workspaces);
    a := Analysis(|workspaces|, total, stats, workspaces);
  }

  // ---------------------------------------------------------------------------
  // What the classification guarantees
  // ---------------------------------------------------------------------------

  /**
    Every workload of `p` occurs in the table, starts with `p + "-"`, is not a
    runtime service, and matches no prefix discovered before `p`.
   */
  lemma WorkloadShape(rows: seq<ServiceRow>, prefixes: seq<string>, p: string, s: string)
    requires s in Workloads(rows, prefixes, p)
    ensures p in prefixes && StartsWith(s, p + "-") && !IsRuntime(s)
    ensures exists r :: r in rows && r.service == Some(s)
    ensures exists k :: 0 <= k < |prefixes| && prefixes[k] == p &&
                        forall j :: 0 <= j < k ==> !StartsWith(s, prefixes[j] + "-")
  {
    var r :| r in rows && IsWorkloadOf(prefixes, r, p) && r.service.value == s;
    var k :| 0 <= k < |prefixes| && prefixes[k] == p;
    var j := FirstMatchingIndex(prefixes, s, k);
    FirstMatchAt(prefixes, s, j);
  }

  /** The least index whose prefix `s` matches, when the one at `k` does. */
  lemma {:induction false} FirstMatchingIndex(prefixes: seq<string>, s: string, k: nat) returns (j: nat)
    requires k < |prefixes| && StartsWith(s, prefixes[k] + "-")
    ensures j <= k && StartsWith(s, prefixes[j] + "-")
    ensures forall i :: 0 <= i < j ==> !StartsWith(s, prefixes[i] + "-")
    decreases k
  {
    if exists i :: 0 <= i < k && StartsWith(s, prefixes[i] + "-") {
      var i :| 0 <= i < k && StartsWith(s, prefixes[i] + "-");
      j := FirstMatchingIndex(prefixes, s, i);
    } else {
      j := k;
    }
  }

  /** A service is a workload of at most one workspace. */
  lemma AtMostOneWorkspace(rows: seq<ServiceRow>, prefixes: seq<string>, p: string, q: string, s: string)
    requires s in Workloads(rows, prefixes, p) && s in Workloads(rows, prefixes, q)
    ensures p == q
  {
  }

  /** Each environment subset and each organisation subset lies within the workload set, so no count exceeds the total. */
  lemma SubsetsOfWorkloads(rows: seq<ServiceRow>, prefixes: seq<string>, p: string, e: string, o: string)
    ensures EnvWorkloads(rows, prefixes, p, e) <= Workloads(rows, prefixes, p)
    ensures OrgWorkloads(rows, prefixes, p, o) <= Workloads(rows, prefixes, p)
    ensures |EnvWorkloads(rows, prefixes, p, e)| <= |Workloads(rows, prefixes, p)|
    ensures |OrgWorkloads(rows, prefixes, p, o)| <= |Workloads(rows, prefixes, p)|
  {
    SubsetCardinality(EnvWorkloads(rows, prefixes, p, e), Workloads(rows, prefixes, p));
    SubsetCardinality(OrgWorkloads(rows, prefixes, p, o), Workloads(rows, prefixes, p));
  }

  lemma SubsetCardinality(a: set<string>, b: set<string>)
    requires a <= b
    ensures |a| <= |b|
  {
    assert b == a + (b - a);
  }

  /** Only truthy labels are recorded: every environment is one of the seven labels and no organisation is empty. */
  lemma RecordedLabels(rows: seq<ServiceRow>, prefixes: seq<string>, p: string)
    ensures forall e :: e in EnvsSeen(rows, prefixes, p) ==> e in EnvLabels
    ensures forall o :: o in OrgsSeen(rows, prefixes, p) ==> o != ""
    ensures forall e :: e in EnvsSeen(rows, prefixes, p) <==> EnvWorkloads(rows, prefixes, p, e) != {}
    ensures forall o :: o in OrgsSeen(rows, prefixes, p) <==> OrgWorkloads(rows, prefixes, p, o) != {}
  {
    forall e ensures e in EnvsSeen(rows, prefixes, p) <==> EnvWorkloads(rows, prefixes, p, e) != {} {
      if e in EnvsSeen(rows, prefixes, p) {
        var r :| r in rows && IsWorkloadOf(prefixes, r, p) && Truthy(EnvOfRow(r)) && EnvOfRow(r).value == e;
        assert r.service.value in EnvWorkloads(rows, prefixes, p, e);
      } else {
        GroupedEmpty(rows, prefixes, p, EnvOfRow, e);
      }
    }
    forall o ensures o in OrgsSeen(rows, prefixes, p) <==> OrgWorkloads(rows, prefixes, p, o) != {} {
      if o in OrgsSeen(rows, prefixes, p) {
        var r :| r in rows && IsWorkloadOf(prefixes, r, p) && Truthy(OrgOfRow(r)) && OrgOfRow(r).value == o;
        assert r.service.value in OrgWorkloads(rows, prefixes, p, o);
      } else {
        GroupedEmpty(rows, prefixes, p, OrgOfRow, o);
      }
    }
  }

  /**
    The environment of a workload depends on its name alone, so the
    environment subsets of a workspace are pairwise disjoint.
   */
  lemma EnvSubsetsDisjoint(rows: seq<ServiceRow>, prefixes: seq<string>, p: string, e: string, e': string)
    requires e != e'
    ensures EnvWorkloads(rows, prefixes, p, e) !! EnvWorkloads(rows, prefixes, p, e')
  {
  }

  /** The workloads owned by the workspaces in `qs`. */
  ghost function OwnedBy(rows: seq<ServiceRow>, prefixes: seq<string>, qs: seq<string>): set<string> {
    set r | r in rows && r.service.Some? && !IsRuntime(r.service.value) &&
            FirstMatch(prefixes, r.service.value).Some? && FirstMatch(prefixes, r.service.value).value in qs ::
            r.service.value
  }

  lemma {:induction false} SumIsOwned(rows: seq<ServiceRow>, prefixes: seq<string>, qs: seq<string>)
    requires Distinct(qs)
    ensures SumOfWorkloads(rows, prefixes, qs) == |OwnedBy(rows, prefixes, qs)|
    decreases |qs|
  {
    if |qs| == 0 {
      assert OwnedBy(rows, prefixes, qs) == {};
    } else {
      var init, q := qs[..|qs| - 1], qs[|qs| - 1];
      assert Distinct(init);
      SumIsOwned(rows, prefixes, init);
      assert forall x :: x in qs <==> x in init || x == q by {
        assert qs == init + [q];
      }
      assert OwnedBy(rows, prefixes, qs) == OwnedBy(rows, prefixes, init) + Workloads(rows, prefixes, q);
      assert q !in init;
      assert OwnedBy(rows, prefixes, init) !! Workloads(rows, prefixes, q);
    }
  }

  /**
    The grand total is the sum of the per-workspace totals, and, because a
    service belongs to at most one workspace, it is the number of distinct
    workload names.
   */
  lemma TotalIsDistinctWorkloads(rows: seq<ServiceRow>, prefixes: seq<string>)
    requires Distinct(prefixes)
    ensures SumOfWorkloads(rows, prefixes, prefixes) == |AllWorkloads(rows, prefixes)|
  {
    SumIsOwned(rows, prefixes, prefixes);
    assert OwnedBy(rows, prefixes, prefixes) == AllWorkloads(rows, prefixes);
  }

  /**
    The statistics of a workspace are consistent: its total is the length of
    its name list, every distribution count is positive and at most the
    total, environments are labels and organisations are not empty.
   */
  lemma StatsConsistent(st: WorkspaceStats, rows: seq<ServiceRow>, prefixes: seq<string>, p: string)
    requires Summarises(st, rows, prefixes, p)
    ensures st.totalWorkloads == |st.workloadNames|
    ensures forall e :: e in st.envDistribution ==> e in EnvLabels && 0 < st.envDistribution[e] <= st.totalWorkloads
    ensures forall o :: o in st.orgDistribution ==> o != "" && 0 < st.orgDistribution[o] <= st.totalWorkloads
  {
    RecordedLabels(rows, prefixes, p);
    forall e | e in st.envDistribution ensures e in EnvLabels && 0 < st.envDistribution[e] <= st.totalWorkloads {
      SubsetsOfWorkloads(rows, prefixes, p, e, "");
    }
    forall o | o in st.orgDistribution ensures o != "" && 0 < st.orgDistribution[o] <= st.totalWorkloads {
      SubsetsOfWorkloads(rows, prefixes, p, "", o);
    }
  }

  /**
    Prefixes are tried in discovery order: a service that starts with an
    earlier prefix is never a workload of a later one, even if it also
    starts with the later one.
   */
  lemma EarlierPrefixWins(rows: seq<ServiceRow>, prefixes: seq<string>, i: nat, j: nat, s: string)
    requires i < j < |prefixes| && Distinct(prefixes)
    requires StartsWith(s, prefixes[i] + "-")
    ensures s !in Workloads(rows, prefixes, prefixes[j])
  {
    if s in Workloads(rows, prefixes, prefixes[j]) {
      var r :| r in rows && IsWorkloadOf(prefixes, r, prefixes[j]) && r.service.value == s;
      var k := FirstMatchingIndex(prefixes, s, i);
      FirstMatchAt(prefixes, s, k);
      assert false;
    }
  }

  // ---------------------------------------------------------------------------
  // Worked tables
  // ---------------------------------------------------------------------------

  function Named(service: string): ServiceRow {
    ServiceRow(Some(service), None, NotATime)
  }

  /** `P + "-runtime"` is a runtime service of prefix `P`. */
  lemma RuntimeOf(p: string)
    ensures IsRuntime(p + RuntimeSuffix) && RuntimePrefix(p + RuntimeSuffix) == p
  {
    var s := p + RuntimeSuffix;
    assert s[|s| - |RuntimeSuffix|..] == RuntimeSuffix;
  }

  function PaymentsTable(): seq<ServiceRow> {
    [Named("pay-runtime"), Named("pay-api"), Named("pay-job"), Named("ops-runtime")]
  }

  /**
    The table `pay-runtime, pay-api, pay-job, ops-runtime` has the
    workspaces `pay` (two workloads) and `ops` (none).
   */
  lemma PaymentsExample()
    ensures Discovered(PaymentsTable()) == ["pay", "ops"]
    ensures Workloads(PaymentsTable(), ["pay", "ops"], "pay") == {"pay-api", "pay-job"}
    ensures Workloads(PaymentsTable(), ["pay", "ops"], "ops") == {}
  {
    PaymentsDiscovery();
    PaymentsWorkloads();
  }

  lemma PaymentsDiscovery()
    ensures Discovered(PaymentsTable()) == ["pay", "ops"]
  {
    var rows := PaymentsTable();
    RuntimeOf("pay");
    RuntimeOf("ops");
    assert rows[0].service.value == "pay" + RuntimeSuffix;
    assert rows[3].service.value == "ops" + RuntimeSuffix;
    var none: seq<ServiceRow> := [];
    DiscoveredSnoc(none, rows[0]);
    DiscoveredSnoc([rows[0]], rows[1]);
    DiscoveredSnoc([rows[0], rows[1]], rows[2]);
    DiscoveredSnoc([rows[0], rows[1], rows[2]], rows[3]);
    assert none + [rows[0]] == [rows[0]];
    assert [rows[0]] + [rows[1]] == [rows[0], rows[1]];
    assert [rows[0], rows[1]] + [rows[2]] == [rows[0], rows[1], rows[2]];
    assert [rows[0], rows[1], rows[2]] + [rows[3]] == rows;
  }

  lemma PaymentsWorkloads()
    ensures Workloads(PaymentsTable(), ["pay", "ops"], "pay") == {"pay-api", "pay-job"}
    ensures Workloads(PaymentsTable(), ["pay", "ops"], "ops") == {}
  {
    var rows := PaymentsTable();
    var ps := ["pay", "ops"];
    RuntimeOf("pay");
    RuntimeOf("ops");
    assert rows[0].service.value == "pay" + RuntimeSuffix;
    assert rows[3].service.value == "ops" + RuntimeSuffix;
    assert StartsWith(rows[1].service.value, "pay" + "-") && StartsWith(rows[2].service.value, "pay" + "-");
    assert FirstMatch(ps, "pay-api") == Some("pay") && FirstMatch(ps, "pay-job") == Some("pay");
    assert IsWorkloadOf(ps, rows[1], "pay") && IsWorkloadOf(ps, rows[2], "pay");
  }

  lemma NestedNames()
    ensures IsRuntime("a-runtime") && RuntimePrefix("a-runtime") == "a"
    ensures IsRuntime("a-b-runtime") && RuntimePrefix("a-b-runtime") == "a-b"
    ensures !IsRuntime("a-b-c")
    ensures FirstMatch(["a", "a-b"], "a-b-c") == Some("a")
    ensures StartsWith("a-b-c", "a-b" + "-")
  {
    var a: string := "a-runtime";
    assert a == "a" + RuntimeSuffix;
    var b: string := "a-b-runtime";
    assert b == "a-b" + RuntimeSuffix;
    var c: string := "a-b-c";
    assert !EndsWith(c, RuntimeSuffix) && StartsWith(c, "a" + "-") && StartsWith(c, "a-b" + "-");
  }

  /**
    Nested prefixes: with `a-runtime` listed before `a-b-runtime`, the
    service `a-b-c` belongs to `a`, although it also starts with `a-b-`.
   */
  lemma NestedPrefixExample()
    ensures var rows := [Named("a-runtime"), Named("a-b-runtime"), Named("a-b-c")];
            && Discovered(rows) == ["a", "a-b"]
            && "a-b-c" in Workloads(rows, ["a", "a-b"], "a")
            && "a-b-c" !in Workloads(rows, ["a", "a-b"], "a-b")
  {
    var rows := [Named("a-runtime"), Named("a-b-runtime"), Named("a-b-c")];
    NestedNames();
    assert rows[..1] == [rows[0]] && rows[..2] == rows[..1] + [rows[1]];
    assert rows[..2][..1] == rows[..1] && rows[..1][..0] == [];
    assert Discovered(rows[..1]) == ["a"];
    assert Discovered(rows[..2]) == ["a", "a-b"];
    assert IsWorkloadOf(["a", "a-b"], rows[2], "a");
  }
}
