/**
  The decision logic of the recruiter dashboard page: the application
  search/status filter, the summary counts, the per-job selection of
  applications, the status-to-style lookup and the test-score cell.
  The page's two pieces of UI state (search term and status filter) are
  parameters here.
 */
module Dashboard {
  import opened Types
  import opened Text
  import opened Sequences

  /** The status filter value that lets every status through. */
  const AllStatuses: string := "all"

  // ---------------------------------------------------------------------
  // Application filter
  // ---------------------------------------------------------------------

  /** The lower-cased search term occurs in the lower-cased name, job title or email. */
  predicate MatchesSearch(app: Application, searchTerm: string): (b: bool)
    ensures b <==> || Occurs(Lower(app.candidateName), Lower(searchTerm))
                   || Occurs(Lower(app.jobTitle), Lower(searchTerm))
                   || Occurs(Lower(app.email), Lower(searchTerm))
    ensures searchTerm == [] ==> b
  {
    IncludesIff(Lower(app.candidateName), Lower(searchTerm));
    IncludesIff(Lower(app.jobTitle), Lower(searchTerm));
    IncludesIff(Lower(app.email), Lower(searchTerm));
    var term := Lower(searchTerm);
    || Includes(Lower(app.candidateName), term)
    || Includes(Lower(app.jobTitle), term)
    || Includes(Lower(app.email), term)
  }

  /** The filter is the wildcard or names the application's status. */
  predicate MatchesStatus(app: Application, statusFilter: string): (b: bool)
    ensures statusFilter == AllStatuses ==> b
    ensures forall s: Status :: statusFilter == StatusName(s) ==> (b <==> app.status == s)
  {
    forall s: Status ensures StatusName(s) == StatusName(app.status) <==> s == app.status {
      StatusNameInjective(s, app.status);
    }
    statusFilter == AllStatuses || StatusName(app.status) == statusFilter
  }

  /** The predicate the page passes to `filter`. */
  function Criterion(searchTerm: string, statusFilter: string): Application -> bool
  {
    (app: Application) => MatchesSearch(app, searchTerm) && MatchesStatus(app, statusFilter)
  }

  /** The applications shown in the table, in their original order. */
  function FilteredApplications(apps: seq<Application>, searchTerm: string, statusFilter: string): (r: seq<Application>)
    ensures forall a :: a in r <==> a in apps && MatchesSearch(a, searchTerm) && MatchesStatus(a, statusFilter)
    ensures IsSubsequence(r, apps)
  {
    FilterIsSubsequence(apps, Criterion(searchTerm, statusFilter));
    Filter(apps, Criterion(searchTerm, statusFilter))
  }

  /** Every matching application is shown as often as it occurs; a non-matching one never is. */
  lemma FilteredMultiplicity(apps: seq<Application>, searchTerm: string, statusFilter: string, a: Application)
    ensures multiset(FilteredApplications(apps, searchTerm, statusFilter))[a]
         == if MatchesSearch(a, searchTerm) && MatchesStatus(a, statusFilter) then multiset(apps)[a] else 0
  {
    FilterMultiplicity(apps, Criterion(searchTerm, statusFilter), a);
  }

  /** Searching for an application's own candidate name, in any ASCII case, finds it. */
  lemma OwnNameMatches(app: Application, searchTerm: string)
    requires Lower(searchTerm) == Lower(app.candidateName)
    ensures MatchesSearch(app, searchTerm)
  {
    IncludesSelf(Lower(app.candidateName));
  }

  /** The search term and the status filter "all" restrict nothing: the full list comes back. */
  lemma {:induction false} NoFilterIsIdentity(apps: seq<Application>)
    ensures FilteredApplications(apps, "", AllStatuses) == apps
  {
    forall a | a in apps ensures Criterion("", AllStatuses)(a) {
      assert MatchesSearch(a, "");
    }
    FilterAllTrue(apps, Criterion("", AllStatuses));
  }

  /** With the filter "all", an application is shown exactly when it matches the search. */
  lemma AllStatusesOnlySearches(apps: seq<Application>, searchTerm: string)
    ensures forall a :: a in FilteredApplications(apps, searchTerm, AllStatuses) <==> a in apps && MatchesSearch(a, searchTerm)
    ensures FilteredApplications(apps, searchTerm, AllStatuses) == Filter(apps, app => MatchesSearch(app, searchTerm))
  {
    FilterExtensional(apps, Criterion(searchTerm, AllStatuses), app => MatchesSearch(app, searchTerm));
  }

  /** With an empty search and the name of a status as filter, exactly the applications in that status are shown. */
  lemma StatusOnlySelects(apps: seq<Application>, s: Status)
    ensures forall a :: a in FilteredApplications(apps, "", StatusName(s)) <==> a in apps && a.status == s
  {
    forall a: Application ensures MatchesSearch(a, "") && (MatchesStatus(a, StatusName(s)) <==> a.status == s) {
      StatusNameInjective(a.status, s);
      StatusNameInjective(s, s);
    }
  }

  /** A status filter that is neither "all" nor the name of a status shows nothing. */
  lemma {:induction false} UnknownStatusShowsNothing(apps: seq<Application>, searchTerm: string, statusFilter: string)
    requires statusFilter != AllStatuses
    requires forall s: Status :: StatusName(s) != statusFilter
    ensures FilteredApplications(apps, searchTerm, statusFilter) == []
  {
  }

  /** The search ignores ASCII case: terms with the same lower-cased form show the same list. */
  lemma {:induction false} SearchIgnoresCase(apps: seq<Application>, t1: string, t2: string, statusFilter: string)
    requires Lower(t1) == Lower(t2)
    ensures FilteredApplications(apps, t1, statusFilter) == FilteredApplications(apps, t2, statusFilter)
  {
    FilterExtensional(apps, Criterion(t1, statusFilter), Criterion(t2, statusFilter));
  }

  /** Lower-casing the search term beforehand changes nothing. */
  lemma LowerSearchTermSame(apps: seq<Application>, searchTerm: string, statusFilter: string)
    ensures FilteredApplications(apps, Lower(searchTerm), statusFilter) == FilteredApplications(apps, searchTerm, statusFilter)
  {
    LowerIdempotent(searchTerm);
    SearchIgnoresCase(apps, Lower(searchTerm), searchTerm, statusFilter);
  }

  /** A more specific term (one whose lower-cased form includes the other's) shows a sub-list of the results. */
  lemma {:induction false} NarrowerSearchShowsSubsequence(apps: seq<Application>, wide: string, narrow: string, statusFilter: string)
    requires Includes(Lower(narrow), Lower(wide))
    ensures IsSubsequence(FilteredApplications(apps, narrow, statusFilter), FilteredApplications(apps, wide, statusFilter))
  {
    forall a | a in apps && Criterion(narrow, statusFilter)(a) ensures Criterion(wide, statusFilter)(a) {
      if Includes(Lower(a.candidateName), Lower(narrow)) {
        IncludesTransitive(Lower(a.candidateName), Lower(narrow), Lower(wide));
      } else if Includes(Lower(a.jobTitle), Lower(narrow)) {
        IncludesTransitive(Lower(a.jobTitle), Lower(narrow), Lower(wide));
      } else {
        IncludesTransitive(Lower(a.email), Lower(narrow), Lower(wide));
      }
    }
    FilterMonotone(apps, Criterion(narrow, statusFilter), Criterion(wide, statusFilter));
  }

  /** Typing more characters after the search term never adds a row. */
  lemma ExtendedSearchShowsSubsequence(apps: seq<Application>, searchTerm: string, more: string, statusFilter: string)
    ensures IsSubsequence(FilteredApplications(apps, searchTerm + more, statusFilter), FilteredApplications(apps, searchTerm, statusFilter))
  {
    LowerConcat(searchTerm, more);
    assert Lower(searchTerm) <= Lower(searchTerm + more);
    NarrowerSearchShowsSubsequence(apps, searchTerm, searchTerm + more, statusFilter);
  }

  // ---------------------------------------------------------------------
  // Stats
  // ---------------------------------------------------------------------

  datatype Stats = Stats(totalJobs: nat, totalApplications: nat, pendingReview: nat, interviews: nat)

  /** The predicate `a.status === name` the stats pass to `filter`; for any name but "all" it is the table's status test. */
  function HasStatusName(name: string): (keep: Application -> bool)
    ensures name != AllStatuses ==> forall a :: keep(a) <==> MatchesStatus(a, name)
  {
    (app: Application) => StatusName(app.status) == name
  }

  /** The four summary cards; the status counts agree with the table under the matching status filter. */
  function ComputeStats(jobs: seq<Job>, apps: seq<Application>): (r: Stats)
    ensures r.totalJobs == |jobs| && r.totalApplications == |apps|
    ensures r.pendingReview == |FilteredApplications(apps, "", StatusName(Pending))|
    ensures r.interviews == |FilteredApplications(apps, "", StatusName(Interview))|
    ensures r.pendingReview + r.interviews <= r.totalApplications
  {
    StatusCountIsFiltered(apps, Pending);
    StatusCountIsFiltered(apps, Interview);
    StatusNameInjective(Pending, Interview);
    FilterDisjointLength(apps, HasStatusName(StatusName(Pending)), HasStatusName(StatusName(Interview)));
    Stats(
      |jobs|,
      |apps|,
      |Filter(apps, HasStatusName(StatusName(Pending)))|,
      |Filter(apps, HasStatusName(StatusName(Interview)))|)
  }

  /** Counting one status equals the length of the table filtered to it with an empty search. */
  lemma StatusCountIsFiltered(apps: seq<Application>, s: Status)
    ensures Filter(apps, HasStatusName(StatusName(s))) == FilteredApplications(apps, "", StatusName(s))
  {
    forall a | a in apps ensures HasStatusName(StatusName(s))(a) == Criterion("", StatusName(s))(a) {
      assert MatchesSearch(a, "");
    }
    FilterExtensional(apps, HasStatusName(StatusName(s)), Criterion("", StatusName(s)));
  }

  /** The number of applications in status `s`: the length of the table for an empty search filtered to `s`. */
  function StatusCount(apps: seq<Application>, s: Status): (n: nat)
    ensures n == |FilteredApplications(apps, "", StatusName(s))|
    ensures n <= |apps|
  {
    StatusCountIsFiltered(apps, s);
    |Filter(apps, HasStatusName(StatusName(s)))|
  }

  /** The five status counts add up to the total number of applications. */
  lemma {:induction false} StatusCountsPartition(apps: seq<Application>)
    ensures StatusCount(apps, Pending) + StatusCount(apps, Reviewing) + StatusCount(apps, Interview)
          + StatusCount(apps, Rejected) + StatusCount(apps, Accepted) == |apps|
    decreases |apps|
  {
    if apps != [] {
      StatusCountsPartition(apps[1..]);
      var s := apps[0].status;
      forall t: Status ensures HasStatusName(StatusName(t))(apps[0]) <==> s == t {
        StatusNameInjective(s, t);
      }
    }
  }

  // ---------------------------------------------------------------------
  // Job postings tab
  // ---------------------------------------------------------------------

  /** The predicate `app.jobId === job.id`. */
  function ForJob(job: Job): Application -> bool
  {
    (app: Application) => app.jobId == job.id
  }

  /** The applications listed under `job`, in their original order. */
  function JobApplications(apps: seq<Application>, job: Job): (r: seq<Application>)
    ensures forall a :: a in r <==> a in apps && a.jobId == job.id
    ensures IsSubsequence(r, apps)
  {
    FilterIsSubsequence(apps, ForJob(job));
    Filter(apps, ForJob(job))
  }

  /** Each application for `job` is listed as often as it occurs; applications for other jobs never are. */
  lemma JobApplicationsMultiplicity(apps: seq<Application>, job: Job, a: Application)
    ensures multiset(JobApplications(apps, job))[a] == if a.jobId == job.id then multiset(apps)[a] else 0
  {
    FilterMultiplicity(apps, ForJob(job), a);
  }

  /** Two postings with different ids share no application, and together list at most all of them. */
  lemma JobApplicationsDisjoint(apps: seq<Application>, j1: Job, j2: Job)
    requires j1.id != j2.id
    ensures forall a :: !(a in JobApplications(apps, j1) && a in JobApplications(apps, j2))
    ensures |JobApplications(apps, j1)| + |JobApplications(apps, j2)| <= |apps|
  {
    FilterDisjointLength(apps, ForJob(j1), ForJob(j2));
  }

  // ---------------------------------------------------------------------
  // Status badge style
  // ---------------------------------------------------------------------

  /** The badge classes for each status: the `colors` lookup, defined for every status. */
  function StatusColor(s: Status): (style: string)
    ensures |style| > 0
  {
    match s
    case Pending => "bg-yellow-500/10 text-yellow-700 dark:text-yellow-400"
    case Reviewing => "bg-blue-500/10 text-blue-700 dark:text-blue-400"
    case Interview => "bg-purple-500/10 text-purple-700 dark:text-purple-400"
    case Rejected => "bg-red-500/10 text-red-700 dark:text-red-400"
    case Accepted => "bg-green-500/10 text-green-700 dark:text-green-400"
  }

  /** Distinct statuses have distinct styles. */
  lemma StatusColorInjective(s: Status, t: Status)
    ensures StatusColor(s) == StatusColor(t) <==> s == t
  {
  }

  // ---------------------------------------------------------------------
  // Test-score cell
  // ---------------------------------------------------------------------

  /** What the "Test Score" column shows: a percentage, or "Not taken". */
  datatype ScoreCell = Percent(score: int) | NotTaken

  /** The cell as the page chooses it: the score is shown only when it is truthy (present and non-zero). */
  function TestScoreCell(app: Application): (c: ScoreCell)
    ensures c.Percent? <==> app.testScore.Some? && app.testScore.value != 0
    ensures c.Percent? ==> c.score == app.testScore.value
  {
    match app.testScore
    case Some(n) => if n != 0 then Percent(n) else NotTaken
    case None => NotTaken
  }

  /** A recorded score of 0 is displayed as "Not taken", as though no test had been taken. */
  lemma ZeroScoreShownAsNotTaken(app: Application)
    requires app.testScore == Some(0)
    ensures TestScoreCell(app) == NotTaken
    ensures TestScoreCellIntended(app) == Percent(0)
  {
  }

  /** The cell as evidently intended: "Not taken" exactly when no score is recorded. */
  function TestScoreCellIntended(app: Application): (c: ScoreCell)
    ensures c == NotTaken <==> app.testScore.None?
    ensures c.Percent? ==> c.score == app.testScore.value
  {
    match app.testScore
    case Some(n) => Percent(n)
    case None => NotTaken
  }

  /** The page's cell and the intended one differ exactly for a recorded score of 0. */
  lemma TestScoreCellsDiffer(app: Application)
    ensures TestScoreCell(app) != TestScoreCellIntended(app) <==> app.testScore == Some(0)
  {
  }
}
