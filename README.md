# Recruiter dashboard: application filter and summary counts

A Dafny model of the decision logic of the recruiter dashboard page of a
job-board front end. The page holds mock job postings and candidate
applications. The model covers:

- the table filter, which keeps an application when the search term occurs
  in its candidate name, job title or email (ignoring case) and the status
  filter is `"all"` or equals its status;
- the four summary cards: number of jobs, number of applications, pending
  applications and interviews;
- the list of applications shown under each job posting;
- the status-to-badge-style lookup;
- the choice between a percentage and "Not taken" in the test-score column.

Everything is pure. The page's two state values, the search term and the
status filter, are function parameters. The job and application lists are
arbitrary input sequences.

Modules:

- `Types` (`types.dfy`): the `Job` and `Application` records, the `Status` enum and its names.
- `Text` (`text.dfy`): ASCII lower-casing and substring search (`includes`).
- `Sequences` (`sequences.dfy`): order-preserving `Filter` (`Array.prototype.filter`) and its laws.
- `Dashboard` (`dashboard.dfy`): the page logic and the properties proved about it.

Modelling choices:

- The status filter is a `string`, because the page keeps it as `useState<string>`. It is compared
  with the status's name. `"all"` is the wildcard. Any other string that is not a status name
  matches nothing (`UnknownStatusShowsNothing`).
- The stats compare `a.status` with the string literals `"pending"` and `"interview"`, so the model
  does the same through `StatusName`.
- `testScore?: number` is an `Option<int>`. In JavaScript a number is truthy unless it is `0` or `NaN`.
  The page shows the score only when it is truthy, so the model shows it when the score is present
  and non-zero.

## Model

| member | source | states |
|---|---|---|
| `Sequences.Filter` | src/frontend/app/dashboard/page.tsx:20-27 | The result is no longer than the input, and it holds exactly the input elements that satisfy the predicate. |
| `Sequences.FilterIsSubsequence` | src/frontend/app/dashboard/page.tsx:20-27 | Filtering only deletes elements: the result is a subsequence of the input, in the same order. |
| `Sequences.FilterMultiplicity` | src/frontend/app/dashboard/page.tsx:20-27 | A matching element is kept as many times as it occurs. A non-matching element never appears. |
| `Sequences.FilterAllTrue` | src/frontend/app/dashboard/page.tsx:20-27 | If the predicate holds for every element, `filter` returns the input unchanged. |
| `Sequences.FilterExtensional` | src/frontend/app/dashboard/page.tsx:20-27 | Two predicates that agree on every element give the same result. |
| `Sequences.FilterMonotone` | src/frontend/app/dashboard/page.tsx:20-27 | A weaker predicate keeps a supersequence of what a stronger one keeps. |
| `Sequences.FilterDisjointLength` | src/frontend/app/dashboard/page.tsx:32-33 | If two predicates are never true together, their two results add up to at most the input's length. |
| `Text.Lower` | src/frontend/app/dashboard/page.tsx:22-24 | `toLowerCase` keeps the length and lower-cases each character on its own: `A`-`Z` become `a`-`z`, everything else is unchanged. |
| `Text.LowerIdempotent` | src/frontend/app/dashboard/page.tsx:22-24 | Lower-casing an already lower-cased string changes nothing. |
| `Text.LowerConcat` | src/frontend/app/dashboard/page.tsx:22-24 | For ASCII lower-casing: lower-casing a concatenation gives the concatenation of the lower-cased parts. |
| `Text.Includes` | src/frontend/app/dashboard/page.tsx:22-24 | `String.prototype.includes`: the empty needle is always included, and an included needle is no longer than the haystack. |
| `Text.IncludesIff` | src/frontend/app/dashboard/page.tsx:22-24 | `includes` is true exactly when the needle occurs at some index of the haystack. |
| `Text.IncludesTransitive` | src/frontend/app/dashboard/page.tsx:22-24 | A substring of a substring of `hay` is a substring of `hay`. |
| `Types.StatusName` | src/frontend/lib/types.ts:33 | The status's string in the union type. Each name is non-empty and none is `"all"`. |
| `Types.StatusNameInjective` | src/frontend/lib/types.ts:33 | Different statuses have different string names. |
| `Dashboard.MatchesSearch` | src/frontend/app/dashboard/page.tsx:21-24 | An application matches exactly when the lower-cased term occurs at some index of the lower-cased candidate name, job title or email. The empty term always matches. |
| `Dashboard.MatchesStatus` | src/frontend/app/dashboard/page.tsx:25 | The filter `"all"` always matches. A filter equal to a status's name matches exactly the applications in that status. |
| `Dashboard.FilteredApplications` | src/frontend/app/dashboard/page.tsx:20-27 | The table is `Filter` applied with `Criterion`, the arrow passed to `filter` (the AND of the search and status tests). An application is in the table exactly when it is in the input and matches both the search and the status filter. The table is a subsequence of the input, in the same order. |
| `Dashboard.FilteredMultiplicity` | src/frontend/app/dashboard/page.tsx:20-27 | A matching application appears as many times as it does in the input. An application that fails either test does not appear. |
| `Dashboard.OwnNameMatches` | src/frontend/app/dashboard/page.tsx:21-24 | Searching for a candidate's own name, in any ASCII case, finds that application. |
| `Dashboard.NoFilterIsIdentity` | src/frontend/app/dashboard/page.tsx:17-27 | With the start-up state (search `""`, status `"all"`), the table is the full list unchanged. |
| `Dashboard.AllStatusesOnlySearches` | src/frontend/app/dashboard/page.tsx:25 | With status `"all"`, only the search decides. The result equals filtering by the search predicate alone. |
| `Dashboard.StatusOnlySelects` | src/frontend/app/dashboard/page.tsx:25 | With an empty search and a status name as filter, the table holds exactly the applications in that status. |
| `Dashboard.UnknownStatusShowsNothing` | src/frontend/app/dashboard/page.tsx:25 | A filter that is neither `"all"` nor a status name gives an empty table. |
| `Dashboard.SearchIgnoresCase` | src/frontend/app/dashboard/page.tsx:22-24 | Two search terms with the same lower-cased form give the same table. |
| `Dashboard.LowerSearchTermSame` | src/frontend/app/dashboard/page.tsx:22-24 | Lower-casing the search term first does not change the table. |
| `Dashboard.NarrowerSearchShowsSubsequence` | src/frontend/app/dashboard/page.tsx:21-24 | If term A's lower-cased form contains term B's, the results for A are a subsequence of the results for B. |
| `Dashboard.ExtendedSearchShowsSubsequence` | src/frontend/app/dashboard/page.tsx:21-24 | For ASCII lower-casing: typing more characters after the search term never adds a row to the table. |
| `Dashboard.HasStatusName` | src/frontend/app/dashboard/page.tsx:32-33 | The stats' predicate `a.status === name` is the table's status test for any name other than `"all"`. |
| `Dashboard.ComputeStats` | src/frontend/app/dashboard/page.tsx:29-34 | The totals are the lengths of the two lists. Pending and interviews equal the table length for an empty search with status `"pending"` and with status `"interview"`. Pending plus interviews is at most the total. |
| `Dashboard.StatusCountIsFiltered` | src/frontend/app/dashboard/page.tsx:25-33 | Filtering by status name alone gives the same list as the table with an empty search and that status. |
| `Dashboard.StatusCount` | src/frontend/app/dashboard/page.tsx:32-33 | The count for one status equals the table's length for an empty search filtered to that status, and is at most the total. |
| `Dashboard.StatusCountsPartition` | src/frontend/app/dashboard/page.tsx:32-33 | The counts for the five statuses add up to the total number of applications. |
| `Dashboard.JobApplications` | src/frontend/app/dashboard/page.tsx:207-208 | The list is `Filter` applied with `ForJob`, the arrow `app.jobId === job.id` at :208. A job's list holds exactly the applications whose `jobId` equals the job's `id`, in their original order. |
| `Dashboard.JobApplicationsMultiplicity` | src/frontend/app/dashboard/page.tsx:208 | Each application for the job appears as many times as in the input. Applications for other jobs never appear. |
| `Dashboard.JobApplicationsDisjoint` | src/frontend/app/dashboard/page.tsx:207-208 | Two postings with different ids share no application. Their two counts add up to at most the total. |
| `Dashboard.StatusColor` | src/frontend/app/dashboard/page.tsx:36-45 | `getStatusColor`: the `colors` lookup gives a non-empty style for every one of the five statuses. |
| `Dashboard.StatusColorInjective` | src/frontend/app/dashboard/page.tsx:36-45 | The lookup is defined for all five statuses, and different statuses get different style tokens. |
| `Dashboard.TestScoreCell` | src/frontend/app/dashboard/page.tsx:172-176 | The score is shown exactly when it is present and non-zero, and then the recorded value is shown. Otherwise the cell reads "Not taken". |
| `Dashboard.ZeroScoreShownAsNotTaken` | src/frontend/app/dashboard/page.tsx:172-176 | A recorded score of 0 shows "Not taken", while the intended cell shows 0%. |
| `Dashboard.TestScoreCellIntended` | src/frontend/app/dashboard/page.tsx:172-176 | "Not taken" exactly when no score is recorded. Otherwise the recorded value is shown. |
| `Dashboard.TestScoreCellsDiffer` | src/frontend/app/dashboard/page.tsx:172-176 | The page's cell and the intended cell differ exactly when the recorded score is 0. |

## Left out

- JSX rendering, Tailwind classes, the UI components and icons. They are presentational only.
- The "No applications found" row (page.tsx:154-159). It only renders the case where `FilteredApplications` is empty.
- React `useState` and re-rendering. The search term and status filter are parameters.
- `Text.Lower`: models `toLowerCase` for ASCII letters only. Full Unicode case mapping is library behaviour, not page logic. Unicode lower-casing can depend on context (a capital sigma becomes a final sigma at the end of a word), so `Text.LowerConcat` and `Dashboard.ExtendedSearchShowsSubsequence` are not promised for it: on the real page, extending a Greek search term can add a row.
- `toLocaleDateString` for the applied and posted dates. It depends on locale and time zone.
- Routing and `Link` targets.
- The contents of the mock-data module, which is not part of this model. `mockJobs` and `mockApplications` are arbitrary sequences.
- `Dashboard.TestScoreCell`: a `NaN` score, which JavaScript also treats as falsy, is not modelled. Scores are integers.
- The `TestQuestion` record, the quiz page and the application form. They are not part of the dashboard logic.
- `src/frontend/app/page.tsx`. It only maps the job list to cards.

## Findings

| source | as written | input that shows it | evidently intended | confidence | as-written member | corrected member |
|---|---|---|---|---|---|---|
| src/frontend/app/dashboard/page.tsx:172-176 | `application.testScore ? … : "Not taken"` tests truthiness | an application with `testScore` equal to 0 (the quiz gives 0 when no answer is correct) | show "Not taken" only when `testScore` is undefined, and show 0% for a score of 0 | medium, not executed | `Dashboard.ZeroScoreShownAsNotTaken` | `Dashboard.TestScoreCellIntended` |
