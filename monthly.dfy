/**
  The monthly aggregation of the usage reporter (`analyze_monthly_creations`):
  the workload rows of the services table, bucketed by the calendar month of
  their creation date into a table keyed by the twelve English month names.

  Unlike `analyze_services`, which counts distinct workload NAMES, this
  aggregation counts ROWS: a workload listed twice is counted twice.
 */
module Monthly {
  import opened Wrappers
  import opened Text
  import opened Services

  /** `strftime('%B')` of months 1..12, in the order the result is reindexed by. */
  const MonthNames: seq<string> := ["January", "February", "March", "April", "May", "June",
                                    "July", "August", "September", "October", "November", "December"]

  /** `pd.to_datetime` raised: a workload's `created_at` is not a readable date. */
  datatype DateParseError = UnreadableCreationDate

  /** The row filter of `analyze_monthly_creations`: a non-null service that matches a prefix and is not a runtime service. */
  predicate IsWorkloadRow(prefixes: seq<string>, r: ServiceRow) {
    r.service.Some? && MatchesSome(prefixes, r.service.value) && !IsRuntime(r.service.value)
  }

  /** `services_df[workload_mask]`, keeping the order of the rows. */
  function WorkloadRows(rows: seq<ServiceRow>, prefixes: seq<string>): (wl: seq<ServiceRow>)
    ensures forall r :: r in wl <==> r in rows && IsWorkloadRow(prefixes, r)
    ensures forall r :: multiset(wl)[r] == if IsWorkloadRow(prefixes, r) then multiset(rows)[r] else 0
    ensures |wl| <= |rows|
    decreases |rows|
  {
    if |rows| == 0 then []
    else
      var rest := WorkloadRows(rows[..|rows| - 1], prefixes);
      var last := rows[|rows| - 1];
      assert rows == rows[..|rows| - 1] + [last];
      assert forall r :: r in rows <==> r in rows[..|rows| - 1] || r == last;
      if IsWorkloadRow(prefixes, last) then rest + [last] else rest
  }

  /** The workload filter is exactly `analyze_services`'s ownership: a workload row is a workload of some workspace. */
  lemma WorkloadRowIsOwned(prefixes: seq<string>, r: ServiceRow)
    ensures IsWorkloadRow(prefixes, r) <==> exists p :: IsWorkloadOf(prefixes, r, p)
  {
    if IsWorkloadRow(prefixes, r) {
      assert IsWorkloadOf(prefixes, r, FirstMatch(prefixes, r.service.value).value);
    }
  }

  /** The month name of a dated row; NaT (`NotATime`) has none and is dropped by `groupby`. */
  function MonthName(c: CreatedAt): (name: Option<string>)
    ensures name.Some? <==> c.At?
    ensures c.At? ==> name.value == MonthNames[c.month - 1]
  {
    match c
    case At(_, month) => Some(MonthNames[month - 1])
    case _ => None
  }

  /** The size of group `name` after `groupby(created_at.strftime('%B'))['service'].count()`. */
  function CountNamed(wl: seq<ServiceRow>, name: string): nat
    decreases |wl|
  {
    if |wl| == 0 then 0
    else CountNamed(wl[..|wl| - 1], name) + (if MonthName(wl[|wl| - 1].createdAt) == Some(name) then 1 else 0)
  }

  /** Some row of `wl` cannot be read as a date. */
  predicate AnyUnreadable(wl: seq<ServiceRow>) {
    exists r :: r in wl && r.createdAt.Unparseable?
  }

  /** `analyze_monthly_creations(services_df, workspaces)` with the dates already read. */
  function MonthlyCreations(rows: seq<ServiceRow>, prefixes: seq<string>): (counts: Result<map<string, nat>, DateParseError>)
    ensures counts.Failure? <==> exists k :: 0 <= k < |rows| && IsWorkloadRow(prefixes, rows[k]) && rows[k].createdAt.Unparseable?
    ensures counts.Success? ==> forall name :: name in counts.value <==> name in MonthNames
  {
    var wl := WorkloadRows(rows, prefixes);
    assert AnyUnreadable(wl) <==>
           exists k :: 0 <= k < |rows| && IsWorkloadRow(prefixes, rows[k]) && rows[k].createdAt.Unparseable? by {
      if AnyUnreadable(wl) {
        var r :| r in wl && r.createdAt.Unparseable?;
        var k :| 0 <= k < |rows| && rows[k] == r;
      }
      if exists k :: 0 <= k < |rows| && IsWorkloadRow(prefixes, rows[k]) && rows[k].createdAt.Unparseable? {
        var k :| 0 <= k < |rows| && IsWorkloadRow(prefixes, rows[k]) && rows[k].createdAt.Unparseable?;
        assert rows[k] in wl;
      }
    }
    if AnyUnreadable(wl) then Failure(UnreadableCreationDate)
    else Success(map name | name in MonthNames :: CountNamed(wl, name))
  }

  // ---------------------------------------------------------------------------
  // Properties
  // ---------------------------------------------------------------------------

  lemma MonthNamesDistinct()
    ensures Distinct(MonthNames)
  {
  }

  /** The number of rows of `wl` that carry a date (NaT rows carry none). */
  function DatedCount(wl: seq<ServiceRow>): nat
    decreases |wl|
  {
    if |wl| == 0 then 0
    else DatedCount(wl[..|wl| - 1]) + (if wl[|wl| - 1].createdAt.At? then 1 else 0)
  }

  /** The sum of `CountNamed(wl, n)` over the names `ns`. */
  function SumNamed(wl: seq<ServiceRow>, ns: seq<string>): nat
    decreases |ns|
  {
    if |ns| == 0 then 0 else CountNamed(wl, ns[0]) + SumNamed(wl, ns[1..])
  }

  /** How many of the names `ns` equal `x`. */
  function Occurrences(ns: seq<string>, x: string): nat
    decreases |ns|
  {
    if |ns| == 0 then 0 else (if ns[0] == x then 1 else 0) + Occurrences(ns[1..], x)
  }

  lemma {:induction false} OccurrencesDistinct(ns: seq<string>, x: string)
    requires Distinct(ns)
    ensures Occurrences(ns, x) == if x in ns then 1 else 0
    decreases |ns|
  {
    if |ns| > 0 {
      assert Distinct(ns[1..]);
      OccurrencesDistinct(ns[1..], x);
      assert x in ns <==> x == ns[0] || x in ns[1..] by {
        assert ns == [ns[0]] + ns[1..];
      }
      if x == ns[0] {
        assert x !in ns[1..];
      }
    }
  }

  /** Adding one row to `wl` adds, over the names `ns`, the number of them that name its month. */
  lemma {:induction false} SumNamedStep(wl: seq<ServiceRow>, ns: seq<string>)
    requires |wl| > 0
    ensures SumNamed(wl, ns) ==
            SumNamed(wl[..|wl| - 1], ns) +
            (match MonthName(wl[|wl| - 1].createdAt) case Some(n) => Occurrences(ns, n) case None => 0)
    decreases |ns|
  {
    if |ns| > 0 {
      SumNamedStep(wl, ns[1..]);
    }
  }

  /** Summed over the twelve months, the counts are the number of dated rows. */
  lemma SumOverMonths(wl: seq<ServiceRow>)
    ensures SumNamed(wl, MonthNames) == DatedCount(wl)
  {
    forall n | n in MonthNames ensures Occurrences(MonthNames, n) == 1 {
      MonthNamesDistinct();
      OccurrencesDistinct(MonthNames, n);
    }
    SumOverNames(wl, MonthNames);
  }

  /** Over names among which every month name occurs once, the counts add up to the dated rows. */
  lemma {:induction false} SumOverNames(wl: seq<ServiceRow>, ns: seq<string>)
    requires forall n :: n in MonthNames ==> Occurrences(ns, n) == 1
    ensures SumNamed(wl, ns) == DatedCount(wl)
    decreases |wl|
  {
    if |wl| > 0 {
      SumOverNames(wl[..|wl| - 1], ns);
      SumNamedStep(wl, ns);
      var c := wl[|wl| - 1].createdAt;
      if c.At? {
        assert MonthNames[c.month - 1] in MonthNames;
      }
    } else {
      SumNamedEmpty(wl, ns);
    }
  }

  lemma {:induction false} SumNamedEmpty(wl: seq<ServiceRow>, ns: seq<string>)
    requires wl == []
    ensures SumNamed(wl, ns) == 0
    decreases |ns|
  {
    if |ns| > 0 {
      SumNamedEmpty(wl, ns[1..]);
    }
  }

  lemma MonthNameInjective(m: MonthNumber, m': MonthNumber)
    requires MonthNames[m - 1] == MonthNames[m' - 1]
    ensures m == m'
  {
    MonthNamesDistinct();
  }

  /** The sum of the twelve values of the month table. */
  function MonthTotal(t: map<string, nat>, ns: seq<string>): nat
    requires forall n :: n in ns ==> n in t
    decreases |ns|
  {
    if |ns| == 0 then 0 else t[ns[0]] + MonthTotal(t, ns[1..])
  }

  lemma {:induction false} MonthTotalIsSum(wl: seq<ServiceRow>, t: map<string, nat>, ns: seq<string>)
    requires forall n :: n in ns ==> n in t && t[n] == CountNamed(wl, n)
    ensures MonthTotal(t, ns) == SumNamed(wl, ns)
    decreases |ns|
  {
    if |ns| > 0 {
      MonthTotalIsSum(wl, t, ns[1..]);
    }
  }

  /**
    The twelve counts add up to the number of dated workload rows: rows whose
    non-null service starts with some prefix followed by `-` and does not end
    in `-runtime`, and whose creation date is present.
   */
  lemma MonthlyTotal(rows: seq<ServiceRow>, prefixes: seq<string>)
    requires MonthlyCreations(rows, prefixes).Success?
    ensures MonthTotal(MonthlyCreations(rows, prefixes).value, MonthNames) == DatedCount(WorkloadRows(rows, prefixes))
  {
    var wl := WorkloadRows(rows, prefixes);
    var t := MonthlyCreations(rows, prefixes).value;
    MonthTotalIsSum(wl, t, MonthNames);
    SumOverMonths(wl);
  }

  /** When every row carries a date, the total is the number of workload rows. */
  lemma {:induction false} AllDated(wl: seq<ServiceRow>)
    requires forall r :: r in wl ==> r.createdAt.At?
    ensures DatedCount(wl) == |wl|
    decreases |wl|
  {
    if |wl| > 0 {
      assert forall r :: r in wl[..|wl| - 1] ==> r in wl;
      AllDated(wl[..|wl| - 1]);
    }
  }

  /** The value of month number `m` counts the workload rows created in month `m`, of any year. */
  lemma MonthValue(rows: seq<ServiceRow>, prefixes: seq<string>, m: MonthNumber)
    requires MonthlyCreations(rows, prefixes).Success?
    ensures MonthlyCreations(rows, prefixes).value[MonthNames[m - 1]] == CountMonth(WorkloadRows(rows, prefixes), m)
  {
    CountNamedIsCountMonth(WorkloadRows(rows, prefixes), m);
  }

  /** The rows of `wl` dated in month `m`, whatever the year. */
  function CountMonth(wl: seq<ServiceRow>, m: MonthNumber): nat
    decreases |wl|
  {
    if |wl| == 0 then 0
    else
      var c := wl[|wl| - 1].createdAt;
      CountMonth(wl[..|wl| - 1], m) + (if c.At? && c.month == m then 1 else 0)
  }

  lemma {:induction false} CountNamedIsCountMonth(wl: seq<ServiceRow>, m: MonthNumber)
    ensures CountNamed(wl, MonthNames[m - 1]) == CountMonth(wl, m)
    decreases |wl|
  {
    if |wl| > 0 {
      CountNamedIsCountMonth(wl[..|wl| - 1], m);
      var c := wl[|wl| - 1].createdAt;
      if c.At? && MonthNames[c.month - 1] == MonthNames[m - 1] {
        MonthNameInjective(c.month, m);
      }
    }
  }

  /** Two tables whose rows differ at most in the year of their dates. */
  predicate SameButYear(rows: seq<ServiceRow>, rows': seq<ServiceRow>) {
    |rows| == |rows'| &&
    forall k :: 0 <= k < |rows| ==>
      rows[k].service == rows'[k].service &&
      match (rows[k].createdAt, rows'[k].createdAt)
      case (At(_, m), At(_, m')) => m == m'
      case (c, c') => c == c'
  }

  lemma {:induction false} SameButYearWorkloads(rows: seq<ServiceRow>, rows': seq<ServiceRow>, prefixes: seq<string>)
    requires SameButYear(rows, rows')
    ensures SameButYear(WorkloadRows(rows, prefixes), WorkloadRows(rows', prefixes))
    decreases |rows|
  {
    if |rows| > 0 {
      var n := |rows| - 1;
      assert SameButYear(rows[..n], rows'[..n]);
      SameButYearWorkloads(rows[..n], rows'[..n], prefixes);
      assert rows[n].service == rows'[n].service;
      if IsWorkloadRow(prefixes, rows[n]) {
        SameButYearSnoc(WorkloadRows(rows[..n], prefixes), WorkloadRows(rows'[..n], prefixes), rows, rows', n);
      }
    }
  }

  /** Extending two tables that differ at most in years by their rows `n` keeps them so. */
  lemma SameButYearSnoc(a: seq<ServiceRow>, a': seq<ServiceRow>, rows: seq<ServiceRow>, rows': seq<ServiceRow>, n: nat)
    requires SameButYear(a, a') && SameButYear(rows, rows') && n < |rows|
    ensures SameButYear(a + [rows[n]], a' + [rows'[n]])
  {
    var b, b' := a + [rows[n]], a' + [rows'[n]];
    forall k | 0 <= k < |b|
      ensures b[k].service == b'[k].service &&
              match (b[k].createdAt, b'[k].createdAt)
              case (At(_, m), At(_, m')) => m == m'
              case (c, c') => c == c'
    {
      if k == |a| {
        assert b[k] == rows[n] && b'[k] == rows'[n];
      } else {
        assert b[k] == a[k] && b'[k] == a'[k];
      }
    }
  }

  lemma {:induction false} SameButYearCounts(wl: seq<ServiceRow>, wl': seq<ServiceRow>, name: string)
    requires SameButYear(wl, wl')
    ensures CountNamed(wl, name) == CountNamed(wl', name)
    decreases |wl|
  {
    if |wl| > 0 {
      var n := |wl| - 1;
      assert SameButYear(wl[..n], wl'[..n]);
      SameButYearCounts(wl[..n], wl'[..n], name);
      assert MonthName(wl[n].createdAt) == MonthName(wl'[n].createdAt);
    }
  }

  lemma SameButYearReadable(wl: seq<ServiceRow>, wl': seq<ServiceRow>)
    requires SameButYear(wl, wl')
    ensures AnyUnreadable(wl) <==> AnyUnreadable(wl')
  {
    if AnyUnreadable(wl) {
      var r :| r in wl && r.createdAt.Unparseable?;
      var k :| 0 <= k < |wl| && wl[k] == r;
      assert wl'[k] in wl' && wl'[k].createdAt.Unparseable?;
    }
    if AnyUnreadable(wl') {
      var r :| r in wl' && r.createdAt.Unparseable?;
      var k :| 0 <= k < |wl'| && wl'[k] == r;
      assert wl[k] in wl && wl[k].createdAt.Unparseable?;
    }
  }

  /** Only the month matters: the same month of different years is counted together. */
  lemma YearIrrelevant(rows: seq<ServiceRow>, rows': seq<ServiceRow>, prefixes: seq<string>)
    requires SameButYear(rows, rows')
    ensures MonthlyCreations(rows, prefixes) == MonthlyCreations(rows', prefixes)
  {
    var wl, wl' := WorkloadRows(rows, prefixes), WorkloadRows(rows', prefixes);
    SameButYearWorkloads(rows, rows', prefixes);
    forall name ensures CountNamed(wl, name) == CountNamed(wl', name) {
      SameButYearCounts(wl, wl', name);
    }
    SameButYearReadable(wl, wl');
    if !AnyUnreadable(wl) {
      assert (map name | name in MonthNames :: CountNamed(wl, name)) ==
             (map name | name in MonthNames :: CountNamed(wl', name));
    }
  }

  // ---------------------------------------------------------------------------
  // Rows versus distinct names
  // ---------------------------------------------------------------------------

  /** The distinct names of a sequence of workload rows are no more than its rows. */
  lemma {:induction false} NamesAtMostRows(wl: seq<ServiceRow>)
    requires forall r :: r in wl ==> r.service.Some?
    ensures |set r | r in wl :: r.service.value| <= |wl|
    decreases |wl|
  {
    if |wl| > 0 {
      var init := wl[..|wl| - 1];
      assert forall r :: r in init ==> r in wl;
      NamesAtMostRows(init);
      assert (set r | r in wl :: r.service.value) ==
             (set r | r in init :: r.service.value) + {wl[|wl| - 1].service.value} by {
        assert wl == init + [wl[|wl| - 1]];
      }
    }
  }

  /**
    When every workload row carries a date, the monthly counts add up to at
    least the grand total of `analyze_services`, which counts each workload
    name once however many rows list it.
   */
  lemma RowsAtLeastNames(rows: seq<ServiceRow>, prefixes: seq<string>)
    requires forall r :: r in rows && IsWorkloadRow(prefixes, r) ==> r.createdAt.At?
    ensures MonthlyCreations(rows, prefixes).Success?
    ensures MonthTotal(MonthlyCreations(rows, prefixes).value, MonthNames) >= |AllWorkloads(rows, prefixes)|
  {
    var wl := WorkloadRows(rows, prefixes);
    MonthlyTotal(rows, prefixes);
    AllDated(wl);
    NamesAtMostRows(wl);
    NamesOfWorkloadRows(rows, prefixes);
  }

  /** The distinct workload names are the names of the kept rows. */
  lemma NamesOfWorkloadRows(rows: seq<ServiceRow>, prefixes: seq<string>)
    ensures AllWorkloads(rows, prefixes) == set r | r in WorkloadRows(rows, prefixes) :: r.service.value
  {
  }

  /** The runtime and workload names of the duplicate-row example. */
  lemma ExampleNames()
    ensures IsRuntime("a-runtime") && RuntimePrefix("a-runtime") == "a"
    ensures !IsRuntime("a-b") && FirstMatch(["a"], "a-b") == Some("a")
  {
    var rt: string := "a-runtime";
    assert rt == "a" + RuntimeSuffix;
    var ab: string := "a-b";
    assert !EndsWith(ab, RuntimeSuffix);
    assert StartsWith(ab, "a" + "-");
  }

  lemma ExampleRows(runtime: ServiceRow, workload: ServiceRow)
    requires runtime.service == Some("a-runtime")
    requires workload == ServiceRow(Some("a-b"), None, At(2024, 3))
    ensures Discovered([runtime, workload, workload]) == ["a"]
    ensures WorkloadRows([runtime, workload, workload], ["a"]) == [workload, workload]
  {
    ExampleNames();
    var rows := [runtime, workload, workload];
    assert rows[..2][..1] == [runtime] && rows[..1][..0] == [];
    assert rows[..1] == [runtime] && rows[..2] == [runtime, workload];
    assert !IsWorkloadRow(["a"], runtime);
    assert IsWorkloadRow(["a"], workload);
    assert Discovered(rows[..1]) == ["a"];
    assert Discovered(rows[..2]) == ["a"];
    assert WorkloadRows(rows[..1], ["a"]) == [];
    assert WorkloadRows(rows[..2], ["a"]) == [workload];
  }

  /**
    A workload listed twice: the monthly table counts both rows, while the
    workspace analysis counts one workload.
   */
  lemma DuplicateRowCountedTwice(runtime: ServiceRow, workload: ServiceRow)
    requires runtime.service == Some("a-runtime")
    requires workload == ServiceRow(Some("a-b"), None, At(2024, 3))
    ensures Discovered([runtime, workload, workload]) == ["a"]
    ensures MonthlyCreations([runtime, workload, workload], ["a"]).Success?
    ensures MonthlyCreations([runtime, workload, workload], ["a"]).value["March"] == 2
    ensures MonthTotal(MonthlyCreations([runtime, workload, workload], ["a"]).value, MonthNames) == 2
    ensures AllWorkloads([runtime, workload, workload], ["a"]) == {"a-b"}
  {
    ExampleRows(runtime, workload);
    DuplicateMonthly(runtime, workload);
    DuplicateDistinct(runtime, workload);
  }

  lemma DuplicateMonthly(runtime: ServiceRow, workload: ServiceRow)
    requires workload == ServiceRow(Some("a-b"), None, At(2024, 3))
    requires WorkloadRows([runtime, workload, workload], ["a"]) == [workload, workload]
    ensures MonthlyCreations([runtime, workload, workload], ["a"]).Success?
    ensures MonthlyCreations([runtime, workload, workload], ["a"]).value["March"] == 2
    ensures MonthTotal(MonthlyCreations([runtime, workload, workload], ["a"]).value, MonthNames) == 2
  {
    var rows := [runtime, workload, workload];
    var wl := WorkloadRows(rows, ["a"]);
    assert !AnyUnreadable(wl);
    MonthValue(rows, ["a"], 3);
    MonthlyTotal(rows, ["a"]);
    TwoDatedRows(workload);
    assert MonthNames[2] == "March";
  }

  /** Two copies of a row created in March: two rows of March, two dated rows. */
  lemma TwoDatedRows(w: ServiceRow)
    requires w.createdAt == At(2024, 3)
    ensures CountMonth([w, w], 3) == 2 && DatedCount([w, w]) == 2
  {
    var one := [w];
    assert one[..0] == [];
    assert CountMonth(one, 3) == 1 && DatedCount(one) == 1;
    var two := [w, w];
    assert two[..1] == one;
  }

  lemma DuplicateDistinct(runtime: ServiceRow, workload: ServiceRow)
    requires workload.service == Some("a-b")
    requires WorkloadRows([runtime, workload, workload], ["a"]) == [workload, workload]
    ensures AllWorkloads([runtime, workload, workload], ["a"]) == {"a-b"}
  {
    var rows := [runtime, workload, workload];
    var wl := WorkloadRows(rows, ["a"]);
    assert AllWorkloads(rows, ["a"]) == set r | r in wl :: r.service.value;
  }
}
