# Usage reporter and user export, modelled in Dafny

This project models two scripts of a usage-reporting tool.

- `reporting.py` reads a table of services (service name, repository URL,
  creation date) and a table of users. It finds the **workspaces**: a
  workspace is announced by a service named `P-runtime`, and its
  **workloads** are the other services whose name starts with `P-`. It
  counts the workloads per workspace, per environment label (taken from
  the service name) and per source-control organisation (taken from the
  repository URL). It counts workload rows per calendar month and counts
  the distinct developers. Then it builds a metric summary, a per-workspace
  detail table and a month table.
- `export_users.py` flattens the user records fetched from the console API
  into CSV rows with ten fixed columns.

Modules:

| file | module | what it models |
|---|---|---|
| `wrappers.dfy` | `Wrappers` | `Option` (Python's `None`/NaN) and `Result` (an operation that raises) |
| `text.dfy` | `Text` | `str.split`, `str.join`, `str.lower` on ASCII, Python's string order and `sorted` of a set, the key order of a dict |
| `classifiers.dfy` | `Classifiers` | `get_environment`, `get_github_org` |
| `services.dfy` | `Services` | `analyze_services`: the two passes and the statistics loop, as methods over value maps, proved against set-comprehension specifications |
| `monthly.dfy` | `Monthly` | `analyze_monthly_creations`, with each creation date already read |
| `developers.dfy` | `Developers` | `count_unique_developers` |
| `report.dfy` | `Report` | the report tables of `export_results_to_zip` and the metric summary of `main` |
| `user_export.dfy` | `UserExport` | `process_user` and the rows `export_to_csv` writes |

Decisions the model makes:

- **Workspace order.** A Python dict keeps its keys in insertion order, so
  workspaces are tried in the order of their first `-runtime` service
  (`Services.Discovered`). The code iterates the dict in
  insertion order, and the model follows the code. When one prefix is a
  prefix of another (`a` and `a-b`), the one discovered first takes the
  shared services (`Services.NestedPrefixExample`).
- **Column collision.** In the detail table, `{**env_data, **org_data}`
  lets an organisation named like an environment label (say `prod`)
  overwrite the value of the `workloads_in_prod` column. The column keeps
  its place. The model keeps this behaviour (`Report.DetailColumn`,
  `Report.ShadowedColumnExample`).
- **Dates.** A creation date is given already read. It is the year and
  month of a date (`At`), a missing value (`NotATime`, which `groupby`
  drops), or text `pd.to_datetime` cannot read (`Unparseable`). The last
  makes the whole aggregation fail.
- **Truthiness.** `if env:` and `if org:` skip both `None` and the empty
  string (`Services.Truthy`). `get_github_org` can return `""` (for
  example for `git@host:/repo`), and such an organisation is not recorded.

## Model

| member | source | states |
|---|---|---|
| Classifiers.FirstLabel | reporting.py:17-20 | the result is absent exactly when no token's lower-case form is a label; otherwise it is the lower-case form of the first such token, and it is one of the seven labels |
| Classifiers.GetEnvironment | reporting.py:14-20 | on the `-`-separated tokens of the name: absent exactly when no token is a label (case-insensitively); otherwise the first label token, lower-cased, a non-empty member of the seven labels |
| Classifiers.EnvironmentOfTokens | reporting.py:14-20 | tokens `before + [label] + after`, where no token of `before` is a label, yield that label whatever follows |
| Classifiers.EnvironmentOfName | reporting.py:14-20 | a name joined from `-`-free tokens has the first label among them as its environment, whatever follows it |
| Classifiers.EnvironmentExample | reporting.py:14-20 | `foo-prod-bar` has environment `prod` |
| Classifiers.GetGithubOrg | reporting.py:22-38 | an organisation is found only for a present URL starting with `git@` or `http`, and never holds `/` |
| Classifiers.SshOrganization | reporting.py:28-32 | for `git@` URLs, the organisation is the text after the first `:`, cut at the next `:` or `/` |
| Classifiers.SshWithoutColon | reporting.py:28-32 | a `git@` URL without `:` has no organisation |
| Classifiers.HttpOrganization | reporting.py:34-37 | for `http` URLs, the organisation is the fourth `/`-separated segment |
| Classifiers.HttpTooFewSegments | reporting.py:34-38 | an `http` URL with fewer than three `/` has no organisation |
| Classifiers.OtherUrls | reporting.py:25-38 | a null URL, and a URL of neither form, have no organisation |
| Classifiers.SshExample | reporting.py:28-32 | `git@github.com:acme/repo.git` belongs to `acme` |
| Classifiers.HttpExample | reporting.py:34-37 | `https://github.com/acme/repo` belongs to `acme` |
| Classifiers.EmptyOrganizationExample | reporting.py:28-32 | `git@host:/repo` gives the empty organisation |
| Text.Split | reporting.py:16 | `str.split` with one separator: at least one piece, and no piece holds the separator |
| Text.JoinSplit | reporting.py:16 | joining the pieces of a split gives back the string |
| Text.SplitCount | reporting.py:33-36 | there is one more piece than separators |
| Text.SortedNames | reporting.py:116-121 | `sorted` of a set: strictly ascending in Python's string order, with exactly the set's elements |
| Text.SortedListingUnique | reporting.py:116-121 | the sorted listing of a set is unique |
| Services.RuntimePrefix | reporting.py:69-71 | `service[:-8]` of a `-runtime` service is the name with the suffix removed |
| Services.DiscoveredDistinct | reporting.py:65-77 | the first pass registers each prefix once |
| Services.DiscoveredExactly | reporting.py:65-77 | the registered prefixes are exactly the distinct `s[:-8]` of the non-null services ending in `-runtime`, and there are as many as there are such distinct prefixes |
| Services.DiscoveryOrder | reporting.py:65-77 | a prefix whose first `-runtime` service comes earlier is registered earlier |
| Services.DiscoveredGrows | reporting.py:65-77 | the prefixes registered over the first rows are a prefix of those registered over the whole table |
| Services.FirstMatch | reporting.py:86-100 | the owner found is a registered prefix the service starts with, followed by `-`; there is none exactly when no prefix matches |
| Services.FirstMatchAt | reporting.py:86-100 | when prefix number `k` matches and none before it does, that prefix is the owner |
| Services.DiscoverWorkspaces | reporting.py:65-77 | the first pass gives the discovered prefixes in order and an empty record for each |
| Services.AssignService | reporting.py:80-100 | one row of the second pass: only the first matching workspace changes, and only when the service is not a runtime service |
| Services.AssignWorkloads | reporting.py:79-100 | after the second pass, every workspace's record holds exactly its workloads and its environment and organisation subsets over the whole table |
| Services.DescribesStep | reporting.py:86-99 | adding one row keeps each record equal to the specification over the rows seen so far |
| Services.SummariseWorkspace | reporting.py:105-124 | the statistics of a workspace: its total, its sorted workload names, its counts per environment and per organisation, and their sorted keys |
| Services.SummariseAll | reporting.py:103-126 | statistics for every workspace, and the grand total is the sum of their totals |
| Services.AnalyzeServices | reporting.py:59-128 | the workspace count is the number of distinct runtime prefixes; every workspace's statistics match the specification; the grand total is the number of distinct workload names |
| Services.WorkloadShape | reporting.py:86-89 | every workload of `p` occurs in the table, starts with `p-`, does not end in `-runtime`, and matches no earlier prefix |
| Services.AtMostOneWorkspace | reporting.py:86-100 | a service is a workload of at most one workspace |
| Services.SubsetsOfWorkloads | reporting.py:89-99 | each environment and organisation subset lies within the workload set, so no count exceeds the total |
| Services.RecordedLabels | reporting.py:92-99 | only non-empty results are recorded: environments are labels, organisations are non-empty, and every recorded key has at least one workload |
| Services.EnvSubsetsDisjoint | reporting.py:92-94 | the environment subsets of a workspace are pairwise disjoint |
| Services.TotalIsDistinctWorkloads | reporting.py:104-126 | the sum of the per-workspace totals is the number of distinct workload names |
| Services.StatsConsistent | reporting.py:105-124 | the total equals the length of the name list; every count is positive and at most the total |
| Services.EarlierPrefixWins | reporting.py:86-100 | a service matching an earlier prefix is never a workload of a later one |
| Services.PaymentsExample | reporting.py:59-128 | `pay-runtime, pay-api, pay-job, ops-runtime`: `pay` has the two workloads and `ops` has none |
| Services.NestedPrefixExample | reporting.py:59-128 | with `a-runtime` before `a-b-runtime`, `a-b-c` belongs to `a` and not to `a-b` |
| Monthly.WorkloadRows | reporting.py:43-49 | the filter keeps exactly the rows with a non-null service that matches a prefix and is not a runtime service, each kept row as many times as it occurs in the table (rows are counted, not names) |
| Monthly.WorkloadRowIsOwned | reporting.py:44-47 | the filter keeps a row exactly when the service is a workload of some workspace in the analysis |
| Monthly.MonthlyCreations | reporting.py:40-57 | fails exactly when some kept row has an unreadable date; otherwise the keys are exactly the twelve month names |
| Monthly.MonthValue | reporting.py:51-56 | the value of month `m` counts the kept rows dated in month `m` |
| Monthly.MonthlyTotal | reporting.py:43-57 | the twelve counts add up to the number of kept rows that have a date |
| Monthly.YearIrrelevant | reporting.py:51-53 | tables that differ only in the years of their dates give the same result |
| Monthly.RowsAtLeastNames | reporting.py:40-57 | when every kept row is dated, the monthly counts add up to at least the distinct-name total of the analysis |
| Monthly.DuplicateRowCountedTwice | reporting.py:40-57 | a workload listed twice counts 2 in its month but 1 distinct workload |
| Monthly.MonthNamesDistinct | reporting.py:55-56 | the twelve month names are distinct |
| Developers.UniqueDevelopers | reporting.py:10-12 | the count is at most the number of emails, and zero exactly when there are none |
| Developers.OneMoreUser | reporting.py:10-12 | one more email adds one developer exactly when no earlier email has the same lower-case form |
| Developers.SameEmails | reporting.py:10-12 | the count depends only on which emails occur |
| Developers.DistinctLowerCaseEmails | reporting.py:10-12 | distinct lower-case emails count one developer each |
| Developers.CaseInsensitiveExample | reporting.py:10-12 | `Alice@x` and `alice@x` are one developer |
| Report.DictOfIsDict | reporting.py:153-158 | a merged dict has distinct keys, the same keys as the pairs, and for each key the value of its last pair |
| Report.DictOfDistinct | reporting.py:153-158 | pairs with distinct keys merge to themselves |
| Report.DictOfPrefix | reporting.py:153-158 | merging more pairs never moves the keys already there |
| Report.DictOfLookup | reporting.py:153-158 | a pair is in the merged dict exactly when it carries the last value for its key |
| Report.EnvColumnsFirst | reporting.py:139-158 | the first seven count columns of every row are `workloads_in_<label>` in the fixed label order |
| Report.DetailColumn | reporting.py:139-158 | column `workloads_in_<n>` holds the organisation count when `n` is an organisation, else the environment count when `n` is a label, defaulting to 0; no other such column exists |
| Report.DetailColumnNames | reporting.py:139-151 | every count column is named `workloads_in_…` |
| Report.NoClash | reporting.py:139-158 | without an organisation named like a label, a row is the seven environment columns followed by one column per organisation in sorted order |
| Report.ShadowedColumnExample | reporting.py:153-158 | an organisation `prod` overwrites the `workloads_in_prod` environment count |
| Report.SortByTotalDesc | reporting.py:160 | the rows in descending order of workload count, and a permutation of the input |
| Report.CollectOrgs | reporting.py:144-146 | `all_orgs` is every organisation of every workspace |
| Report.AppendDetails | reporting.py:137-158 | one detail row per workspace, in the order of the statistics table |
| Report.WorkspaceDetails | reporting.py:137-160 | the organisation columns are the sorted union; the table is sorted descending by total and is a permutation of the workspaces' detail rows, one per workspace |
| Report.SortDetailsAsWritten | reporting.py:160 | as written: sorting fails exactly when there are no detail rows |
| Report.NoRuntimeReportFails | reporting.py:160 | a services table without `-runtime` services has no workspace, and the report cannot be built as written |
| Report.SortCorrected | reporting.py:160 | the corrected sort gives the empty table for no rows and agrees with the source otherwise |
| Report.MonthlyTable | reporting.py:162-164 | one `(month, count)` row per month, January first |
| Report.BuildReport | reporting.py:196-207 | with the corrected details sort: fails exactly when the monthly aggregation fails; the summary holds the developer count, the number of distinct runtime prefixes and the distinct-workload total; the details are sorted descending by total, name every discovered workspace exactly once, and each row's total is the number of distinct workloads of its workspace; the statistics the tables are built from are keyed by exactly the discovered workspaces and each summarises its workspace's workloads; the organisation columns list every organisation seen in those statistics once, in sorted order; and every detail row is its workspace's total followed by the environment counts and one count per organisation column |
| Report.DetailNames | reporting.py:137-158 | the detail rows name every workspace of the analysis, each exactly once |
| UserExport.ProcessUser | export_users.py:59-72 | the flattened record has exactly the ten fields, in the field-list order |
| UserExport.CopiedFields | export_users.py:62-68 | `id`, `name`, `email` and `profile` are copied unchanged |
| UserExport.RenamedFields | export_users.py:66-70 | `pluralId`, `deletedAt`, `insertedAt` and `updatedAt` are copied into their snake-case columns |
| UserExport.DerivedFields | export_users.py:65-71 | `admin` is the roles' admin value, or `False` when roles is null; `groups` is the `;`-join of the names, or `""` when there are none |
| UserExport.DefaultsExample | export_users.py:65-71 | null roles and null groups give `admin` `False` and empty `groups` |
| UserExport.GroupsRoundTrip | export_users.py:71 | a non-empty list of group names, none holding `;`, comes back from splitting the `groups` cell at `;` |
| UserExport.CsvRow | export_users.py:83-86 | each cell holds the record's value for the field in that column |
| UserExport.UserRows | export_users.py:84-86 | one row per user, in input order |
| UserExport.ExportToCsv | export_users.py:74-86 | the header is the field list, followed by one ten-cell row per user |
| UserExport.CellOfRow | export_users.py:76-86 | column `i` of user `k`'s row is that user's value for field `i` |
| UserExport.FieldNamesDistinct | export_users.py:76-79 | the ten field names are distinct |

## Left out

- Reading the CSV files, the environment variables and `sys.exit` handling are not modelled. So are the ZIP archive, the `StringIO` buffers, CSV text serialisation, the timestamped file names and all console output, including the top-5 report in `main`. All of these are I/O. The model starts from the loaded tables.
- `fetch_users` is not modelled. It is an HTTP GraphQL call, and it fetches only the first page of 100 users. `export_to_csv`'s file writing and its `IOError` handling are not modelled either. The model yields the header and rows the CSV writer is given.
- `pd.to_datetime` parsing is not modelled. Each date is given already read as year and month, missing, or unreadable.
- Lower-casing covers ASCII letters only. Python's `str.lower` also maps non-ASCII letters. This affects only `count_unique_developers`: emails that differ in non-ASCII letter case count as different developers in the model.
- Cells are strings or missing. The model does not cover a service or repository cell that holds a number, the effect of `str(s)` in the monthly filter, or NaN emails (which `.unique()` counts as one value).
- The fourth result of `analyze_services` is the raw workspace dict. The model returns only its keys, in order, because the monthly aggregation reads nothing else from it.
- `pandas` builds the detail frame's columns as the union of the row dicts' keys. Every row has the same keys, so the model keeps each row's own column order.
- Report.SortByTotalDesc: does not fix the order of rows with equal totals, because `sort_values` defaults to quicksort, which is not stable. The contract promises only descending order and a permutation.
- Report.BuildReport: uses the corrected details sort (`Report.WorkspaceDetails`), so it succeeds on a table without any `-runtime` service. As written, `export_results_to_zip` raises `KeyError` there (reporting.py:160), `main` reports the error (reporting.py:246-247) and writes no archive. That failure path is modelled separately by `Report.SortDetailsAsWritten` and `Report.NoRuntimeReportFails` (see Findings), not by `BuildReport`.
- Monthly.MonthlyCreations: gives twelve zero counts for an empty services table. As written, the filter mask of an empty frame is an empty object-typed series, which pandas reads as a list of columns rather than a row mask. The filtered frame then has no `created_at` column, and reading it raises `KeyError` (reporting.py:43-49). So on an empty table the model, and with it `Report.BuildReport`, succeeds where the source raises.
- Report.WorkspaceDetails: computes the organisation set once, not once per workspace as the source loop does. Every iteration computes the same set.
- UserExport.Value: has only null, text and boolean cases. The user fields the export only copies, such as a numeric `id` or a free-form `profile` object, can hold any JSON value. The model lets its scalar cases stand for those values, because no operation looks inside them.
- UserExport.UserNode: gives `roles` as the value of its single selected field `admin`. The query always selects that field, so a present roles object is never empty. Groups are given as their names. A null group name, which would make the join raise, is not modelled.

## Findings

| source | as written | input that shows it | evidently intended | confidence | as-written member | corrected member |
|---|---|---|---|---|---|---|
| reporting.py:160 | `pd.DataFrame(workspace_details).sort_values('total_workload_count', ...)` — a frame built from an empty list has no columns, so sorting it raises `KeyError` | a non-empty services table with no service ending in `-runtime`: there are no workspaces and `workspace_details` is `[]` | an empty details table, written like the other tables | medium; not executed | Report.SortDetailsAsWritten (shown by Report.NoRuntimeReportFails) | Report.WorkspaceDetails (with Report.SortByTotalDesc and Report.SortCorrected) |
