/**
 * The classifier of app.py: the three optional filters, the top-line job
 * KPIs with the strict completion rate, the five-bucket split of the line
 * items, and the per-bucket statistics.
 *
 * The clean table is seen here row by row, as a sequence of line items
 * carrying the columns this part reads.
 */
module Classifier {
  import opened Wrappers
  import opened Text
  import N = Normalizer

  /**
   * One line item: `JOB Num`, `Order No`, `TP Full Name`, `Create Date`,
   * `Status_Packing`, `Status_Loading` and `Job_Status`.
   */
  datatype LineItem = LineItem(
    job: string,
    order: string,
    customer: Option<string>,
    createDate: Option<N.Date>,
    packing: Option<string>,
    loading: Option<string>,
    jobStatus: string)

  // ---------------------------------------------------------------------
  // Row selection

  /** `r` is `t` with some rows left out and the rest in their original order. */
  predicate IsSubsequence(r: seq<LineItem>, t: seq<LineItem>)
    decreases |t|
  {
    r == [] || (t != [] && ((r[0] == t[0] && IsSubsequence(r[1..], t[1..])) || IsSubsequence(r, t[1..])))
  }

  /** `df[mask]`: the rows satisfying `p`, in order. */
  function Keep(t: seq<LineItem>, p: LineItem -> bool): (r: seq<LineItem>)
    ensures IsSubsequence(r, t)
    ensures forall x :: x in r ==> x in t && p(x)
    ensures forall x :: multiset(r)[x] == if p(x) then multiset(t)[x] else 0
  {
    if t == [] then []
    else
      var rest := Keep(t[1..], p);
      assert t == [t[0]] + t[1..];
      assert multiset(t) == multiset{t[0]} + multiset(t[1..]);
      if p(t[0]) then [t[0]] + rest else rest
  }

  /** Rows that all satisfy `p` are all kept. */
  lemma {:induction false} KeepAll(t: seq<LineItem>, p: LineItem -> bool)
    requires forall x :: x in t ==> p(x)
    ensures Keep(t, p) == t
  {
    if t != [] {
      KeepAll(t[1..], p);
    }
  }

  /** Filtering twice by the same mask is filtering once. */
  lemma KeepIdempotent(t: seq<LineItem>, p: LineItem -> bool)
    ensures Keep(Keep(t, p), p) == Keep(t, p)
  {
    KeepAll(Keep(t, p), p);
  }

  /** A subsequence of a subsequence is a subsequence. */
  lemma {:induction false} SubsequenceTransitive(a: seq<LineItem>, b: seq<LineItem>, c: seq<LineItem>)
    requires IsSubsequence(a, b) && IsSubsequence(b, c)
    ensures IsSubsequence(a, c)
    decreases |c|
  {
    if a != [] {
      assert b != [] && c != [];
      if b[0] == c[0] && IsSubsequence(b[1..], c[1..]) {
        if a[0] == b[0] && IsSubsequence(a[1..], b[1..]) {
          SubsequenceTransitive(a[1..], b[1..], c[1..]);
        } else {
          SubsequenceTransitive(a, b[1..], c[1..]);
        }
      } else {
        SubsequenceTransitive(a, b, c[1..]);
      }
    }
  }

  // ---------------------------------------------------------------------
  // Filters (applied one after the other)

  /** The sidebar's date selection: unset, a single day picked so far, or a full range. */
  datatype DateRange = Unset | Partial(first: N.Date) | Between(lo: N.Date, hi: N.Date)

  /** A row whose `Create Date` is missing never falls in a range. */
  predicate InRange(x: LineItem, lo: N.Date, hi: N.Date) {
    x.createDate.Some? && lo <= x.createDate.value <= hi
  }

  /** `df['TP Full Name'] == name`: a missing customer name matches nothing. */
  predicate OfCustomer(x: LineItem, name: string) {
    x.customer == Some(name)
  }

  /** The filter chain; `"All"` switches the customer or status filter off. */
  function ApplyFilters(t: seq<LineItem>, range: DateRange, customer: string, status: string): seq<LineItem> {
    var byCustomer := ByCustomer(t, range, customer);
    if status != "All" then Keep(byCustomer, (x: LineItem) => x.jobStatus == status) else byCustomer
  }

  /** Whether a row passes every active filter. */
  predicate Selected(x: LineItem, range: DateRange, customer: string, status: string) {
    && (range.Between? ==> InRange(x, range.lo, range.hi))
    && (customer != "All" ==> OfCustomer(x, customer))
    && (status != "All" ==> x.jobStatus == status)
  }

  /** The table after the date filter alone. */
  function ByDate(t: seq<LineItem>, range: DateRange): seq<LineItem> {
    if range.Between? then Keep(t, (x: LineItem) => InRange(x, range.lo, range.hi)) else t
  }

  /** The table after the date and customer filters. */
  function ByCustomer(t: seq<LineItem>, range: DateRange, customer: string): seq<LineItem> {
    var a := ByDate(t, range);
    if customer != "All" then Keep(a, (x: LineItem) => OfCustomer(x, customer)) else a
  }

  /** The filtered table is the original with rows left out, in the original order. */
  lemma FiltersKeepOrder(t: seq<LineItem>, range: DateRange, customer: string, status: string)
    ensures IsSubsequence(ApplyFilters(t, range, customer, status), t)
  {
    var a := ByDate(t, range);
    var b := ByCustomer(t, range, customer);
    assert ApplyFilters(t, range, customer, status) == if status != "All" then Keep(b, (x: LineItem) => x.jobStatus == status) else b;
    SubsequenceRefl(t);
    SubsequenceRefl(a);
    SubsequenceRefl(b);
    SubsequenceTransitive(b, a, t);
    SubsequenceTransitive(ApplyFilters(t, range, customer, status), b, t);
  }

  /** The filtered table holds exactly the rows that pass every active filter, each as often as in the original. */
  lemma FiltersSelectExactly(t: seq<LineItem>, range: DateRange, customer: string, status: string)
    ensures forall x ::
      multiset(ApplyFilters(t, range, customer, status))[x] == if Selected(x, range, customer, status) then multiset(t)[x] else 0
  {
    var a := ByDate(t, range);
    var b := ByCustomer(t, range, customer);
    var r := ApplyFilters(t, range, customer, status);
    assert r == if status != "All" then Keep(b, (x: LineItem) => x.jobStatus == status) else b;
    forall x
      ensures multiset(r)[x] == if Selected(x, range, customer, status) then multiset(t)[x] else 0
    {
      assert multiset(a)[x] == if range.Between? ==> InRange(x, range.lo, range.hi) then multiset(t)[x] else 0;
      assert multiset(b)[x] == if customer != "All" ==> OfCustomer(x, customer) then multiset(a)[x] else 0;
    }
  }

  /**
   * Where every row carries the label of its own status, as after cleaning,
   * the status filter on a label keeps exactly the rows with that status.
   */
  lemma StatusFilterSelectsLabel(t: seq<LineItem>, range: DateRange, customer: string, s: N.JobStatus)
    requires forall x :: x in t ==> x.jobStatus == N.Label(RowStatus(x))
    ensures forall x :: x in ApplyFilters(t, range, customer, N.Label(s)) <==>
      x in t && Selected(x, range, customer, "All") && RowStatus(x) == s
  {
    var l := N.Label(s);
    var r := ApplyFilters(t, range, customer, l);
    assert l != "All";
    FiltersSelectExactly(t, range, customer, l);
    forall x
      ensures x in r <==> x in t && Selected(x, range, customer, "All") && RowStatus(x) == s
    {
      assert multiset(r)[x] == if Selected(x, range, customer, l) then multiset(t)[x] else 0;
      if x in t {
        N.LabelInjective(RowStatus(x), s);
      }
    }
  }

  /** Applying the same filters to the filtered table changes nothing. */
  lemma FiltersIdempotent(t: seq<LineItem>, range: DateRange, customer: string, status: string)
    ensures ApplyFilters(ApplyFilters(t, range, customer, status), range, customer, status)
      == ApplyFilters(t, range, customer, status)
  {
    var r := ApplyFilters(t, range, customer, status);
    FiltersSelectExactly(t, range, customer, status);
    forall x | x in r
      ensures Selected(x, range, customer, status)
    {
      assert multiset(r)[x] > 0;
    }
    if range.Between? {
      KeepAll(r, (x: LineItem) => InRange(x, range.lo, range.hi));
    }
    assert ByDate(r, range) == r;
    if customer != "All" {
      KeepAll(r, (x: LineItem) => OfCustomer(x, customer));
    }
    assert ByCustomer(r, range, customer) == r;
    if status != "All" {
      KeepAll(r, (x: LineItem) => x.jobStatus == status);
    }
  }

  lemma {:induction false} SubsequenceRefl(t: seq<LineItem>)
    ensures IsSubsequence(t, t)
  {
    if t != [] {
      SubsequenceRefl(t[1..]);
    }
  }

  /** The date filter drops every row whose `Create Date` is missing. */
  lemma DateFilterDropsMissing(t: seq<LineItem>, lo: N.Date, hi: N.Date, customer: string, status: string)
    ensures forall x :: x in ApplyFilters(t, Between(lo, hi), customer, status) ==> x.createDate.Some?
  {
    FiltersSelectExactly(t, Between(lo, hi), customer, status);
    forall x | x in ApplyFilters(t, Between(lo, hi), customer, status)
      ensures x.createDate.Some?
    {
      assert multiset(ApplyFilters(t, Between(lo, hi), customer, status))[x] > 0;
    }
  }

  // ---------------------------------------------------------------------
  // Row tests shared by the KPIs and the buckets

  /** `Status_Loading` in `done_load`; a missing status is not. */
  predicate IsLoaded(x: LineItem) {
    x.loading.Some? && x.loading.value in N.LoadingFinished
  }

  /** `Status_Loading` contains `OVERLOAD` (`na=False`: a missing status does not). */
  predicate IsOverload(x: LineItem) {
    x.loading.Some? && Contains(x.loading.value, "OVERLOAD")
  }

  /** `Status_Packing` in `done_pack`; a missing status is not. */
  predicate IsPacked(x: LineItem) {
    x.packing.Some? && x.packing.value in N.PackingFinished
  }

  /** `df['JOB Num'].unique()` as a set. */
  function Jobs(s: seq<LineItem>): set<string> {
    set x | x in s :: x.job
  }

  /** `df['Order No'].unique()` as a set. */
  function Orders(s: seq<LineItem>): set<string> {
    set x | x in s :: x.order
  }

  /** There are at most as many distinct jobs and orders as rows. */
  lemma {:induction false} DistinctAtMostRows(s: seq<LineItem>)
    ensures |Jobs(s)| <= |s| && |Orders(s)| <= |s|
  {
    if s != [] {
      var last := s[|s| - 1];
      var init := s[..|s| - 1];
      DistinctAtMostRows(init);
      assert s == init + [last];
      assert Jobs(s) == Jobs(init) + {last.job};
      assert Orders(s) == Orders(init) + {last.order};
    }
  }

  // ---------------------------------------------------------------------
  // Job-level reductions: ALL rows loaded (strict completion) and ANY row loaded (started)

  /** AND-fold over the rows of job `j`: every one of them is loaded. */
  function AllLoaded(t: seq<LineItem>, j: string): (r: bool)
    ensures r <==> forall x :: x in t && x.job == j ==> IsLoaded(x)
  {
    if t == [] then true
    else
      assert t == [t[0]] + t[1..];
      (t[0].job != j || IsLoaded(t[0])) && AllLoaded(t[1..], j)
  }

  /** OR-fold over the rows of job `j`: at least one of them is loaded. */
  function AnyLoaded(t: seq<LineItem>, j: string): (r: bool)
    ensures r <==> exists x :: x in t && x.job == j && IsLoaded(x)
  {
    if t == [] then false
    else
      assert t == [t[0]] + t[1..];
      (t[0].job == j && IsLoaded(t[0])) || AnyLoaded(t[1..], j)
  }

  /** `jobs_complete_strict`: the jobs all of whose rows are loaded. */
  function DoneJobs(t: seq<LineItem>): set<string> {
    set j | j in Jobs(t) && AllLoaded(t, j)
  }

  /** The top-line KPIs: distinct jobs, distinct orders, and jobs done under the strict rule. */
  function Kpis(t: seq<LineItem>): (r: (nat, nat, nat))
    ensures r.2 <= r.0 <= |t| && r.1 <= |t|
    ensures t == [] ==> r == (0, 0, 0)
    ensures r == (|Jobs(t)|, |Orders(t)|, |DoneJobs(t)|)
  {
    DistinctAtMostRows(t);
    DoneJobsCount(t);
    (|Jobs(t)|, |Orders(t)|, |DoneJobs(t)|)
  }

  /** One row that is not loaded keeps its job out of the strict count, whatever its other rows say. */
  lemma OneRowBlocksJob(t: seq<LineItem>, x: LineItem)
    requires x in t && !IsLoaded(x)
    ensures x.job !in DoneJobs(t)
  {
  }

  /** A job is strictly done exactly when it has rows and every one of them is loaded. */
  lemma DoneJobsExactly(t: seq<LineItem>, j: string)
    ensures j in DoneJobs(t) <==> (exists x :: x in t && x.job == j) && forall x :: x in t && x.job == j ==> IsLoaded(x)
  {
  }

  /** `rate`: done jobs over distinct jobs, in percent; 0 when there are no jobs. */
  function CompletionRate(t: seq<LineItem>): (rate: real)
    ensures 0.0 <= rate <= 100.0
    ensures |Jobs(t)| == 0 ==> rate == 0.0
    ensures rate == 100.0 <==> |Jobs(t)| > 0 && DoneJobs(t) == Jobs(t)
    ensures |Jobs(t)| > 0 ==> rate * (|Jobs(t)| as real) == (|DoneJobs(t)| as real) * 100.0
  {
    var total := |Jobs(t)|;
    var done := |DoneJobs(t)|;
    DoneJobsCount(t);
    if total == 0 then 0.0
    else
      RatioBounds(done, total);
      (done as real) / (total as real) * 100.0
  }

  /** Strictly done jobs are among the jobs, and as many as them only when they are all of them. */
  lemma DoneJobsCount(t: seq<LineItem>)
    ensures DoneJobs(t) <= Jobs(t) && |DoneJobs(t)| <= |Jobs(t)|
    ensures |DoneJobs(t)| == |Jobs(t)| ==> DoneJobs(t) == Jobs(t)
  {
    SubsetSize(DoneJobs(t), Jobs(t));
  }

  lemma RatioBounds(done: nat, total: nat)
    requires 0 < total && done <= total
    ensures 0.0 <= (done as real) / (total as real) * 100.0 <= 100.0
    ensures (done as real) / (total as real) * 100.0 == 100.0 <==> done == total
  {
    QuotientBounds(done as real, total as real);
  }

  /** A share of a positive whole lies in [0, 1] and is 1 exactly for the whole. */
  lemma QuotientBounds(d: real, n: real)
    requires 0.0 <= d <= n && 0.0 < n
    ensures 0.0 <= d / n <= 1.0
    ensures d / n == 1.0 <==> d == n
  {
    var q := d / n;
    assert q * n == d;
    if q == 1.0 {
      assert d == n;
    }
    UnitFactor(q, d, n);
  }

  /** Only the factor 1 maps a positive number to itself. */
  lemma UnitFactor(q: real, d: real, n: real)
    requires 0.0 < n && q * n == d
    ensures q == 1.0 <==> d == n
  {
  }

  /** A subset is no larger than its superset, and of equal size only when equal. */
  lemma {:induction false} SubsetSize(a: set<string>, b: set<string>)
    requires a <= b
    ensures |a| <= |b|
    ensures |a| == |b| ==> a == b
    decreases a
  {
    if a != {} {
      var e :| e in a;
      SubsetSize(a - {e}, b - {e});
      if |a| == |b| {
        assert a - {e} == b - {e};
        assert a == (a - {e}) + {e} && b == (b - {e}) + {e};
      }
    } else if |b| == 0 {
      assert b == {};
    }
  }

  // ---------------------------------------------------------------------
  // The five buckets, built in the order of the dashboard

  /** Green: every loaded row. */
  function Green(t: seq<LineItem>): seq<LineItem> {
    Keep(t, IsLoaded)
  }

  /** Purple: every overload row. */
  function Purple(t: seq<LineItem>): seq<LineItem> {
    Keep(t, IsOverload)
  }

  /** The rows in neither Green nor Purple (`~df.index.isin(processed_indices)`). */
  function PendingRows(t: seq<LineItem>): seq<LineItem> {
    Keep(t, (x: LineItem) => !IsLoaded(x) && !IsOverload(x))
  }

  /** `started_jobs`: the jobs that appear among the Green rows. */
  function StartedJobs(t: seq<LineItem>): set<string> {
    Jobs(Green(t))
  }

  /** Blue: pending rows of a started job. */
  function Blue(t: seq<LineItem>): seq<LineItem> {
    var started := StartedJobs(t);
    Keep(PendingRows(t), (x: LineItem) => x.job in started)
  }

  /** Pending rows of a job with no Green row. */
  function NotStarted(t: seq<LineItem>): seq<LineItem> {
    var started := StartedJobs(t);
    Keep(PendingRows(t), (x: LineItem) => x.job !in started)
  }

  /** Yellow: not-started rows that are packed. */
  function Yellow(t: seq<LineItem>): seq<LineItem> {
    Keep(NotStarted(t), IsPacked)
  }

  /** Red: not-started rows that are not packed (a missing packing status included). */
  function Red(t: seq<LineItem>): seq<LineItem> {
    Keep(NotStarted(t), (x: LineItem) => !IsPacked(x))
  }

  datatype Bucket = GreenLoaded | PurpleOverload | BlueInProgress | YellowReady | RedNotPacked

  function Rows(t: seq<LineItem>, b: Bucket): seq<LineItem> {
    match b
    case GreenLoaded => Green(t)
    case PurpleOverload => Purple(t)
    case BlueInProgress => Blue(t)
    case YellowReady => Yellow(t)
    case RedNotPacked => Red(t)
  }

  /**
   * The bucket a row belongs to, decided from the row itself and the set
   * of started jobs: an independent statement of the split.
   */
  function BucketOf(x: LineItem, started: set<string>): Bucket {
    if IsLoaded(x) then GreenLoaded
    else if IsOverload(x) then PurpleOverload
    else if x.job in started then BlueInProgress
    else if IsPacked(x) then YellowReady
    else RedNotPacked
  }

  /** A loaded row is never an overload row: no finished loading text contains `OVERLOAD`. */
  lemma LoadedIsNotOverload(x: LineItem)
    ensures IsLoaded(x) ==> !IsOverload(x)
  {
    if IsLoaded(x) {
      N.FinishedIsNotOverload(x.loading.value);
    }
  }

  /** Each bucket holds exactly the rows that BucketOf sends to it, each as often as in the table. */
  lemma BucketCounts(t: seq<LineItem>, x: LineItem, b: Bucket)
    ensures multiset(Rows(t, b))[x] == if BucketOf(x, StartedJobs(t)) == b then multiset(t)[x] else 0
  {
    LoadedIsNotOverload(x);
    var started := StartedJobs(t);
    var pending := PendingRows(t);
    assert multiset(pending)[x] == if !IsLoaded(x) && !IsOverload(x) then multiset(t)[x] else 0;
    match b
    case GreenLoaded =>
    case PurpleOverload =>
    case BlueInProgress =>
    case YellowReady =>
      assert multiset(NotStarted(t))[x] == if x.job !in started then multiset(pending)[x] else 0;
    case RedNotPacked =>
      assert multiset(NotStarted(t))[x] == if x.job !in started then multiset(pending)[x] else 0;
  }

  /** A row is in a bucket exactly when it is in the table and BucketOf sends it there. */
  lemma BucketMembership(t: seq<LineItem>, x: LineItem, b: Bucket)
    ensures x in Rows(t, b) <==> x in t && BucketOf(x, StartedJobs(t)) == b
  {
    BucketCounts(t, x, b);
    assert x in Rows(t, b) <==> multiset(Rows(t, b))[x] > 0;
    assert x in t <==> multiset(t)[x] > 0;
  }

  /** The five buckets are pairwise disjoint. */
  lemma BucketsDisjoint(t: seq<LineItem>, b1: Bucket, b2: Bucket)
    requires b1 != b2
    ensures multiset(Rows(t, b1)) !! multiset(Rows(t, b2))
  {
    forall x
      ensures multiset(Rows(t, b1))[x] == 0 || multiset(Rows(t, b2))[x] == 0
    {
      BucketCounts(t, x, b1);
      BucketCounts(t, x, b2);
    }
  }

  /** Together the five buckets are the table: as multisets, and so in size. */
  lemma BucketsCover(t: seq<LineItem>)
    ensures multiset(Green(t)) + multiset(Purple(t)) + multiset(Blue(t)) + multiset(Yellow(t)) + multiset(Red(t))
      == multiset(t)
    ensures |Green(t)| + |Purple(t)| + |Blue(t)| + |Yellow(t)| + |Red(t)| == |t|
  {
    var sum := multiset(Green(t)) + multiset(Purple(t)) + multiset(Blue(t)) + multiset(Yellow(t)) + multiset(Red(t));
    forall x
      ensures sum[x] == multiset(t)[x]
    {
      BucketCounts(t, x, GreenLoaded);
      BucketCounts(t, x, PurpleOverload);
      BucketCounts(t, x, BlueInProgress);
      BucketCounts(t, x, YellowReady);
      BucketCounts(t, x, RedNotPacked);
    }
    assert sum == multiset(t);
  }

  /** A job is started exactly when ANY of its rows is loaded. */
  lemma StartedMeansAnyLoaded(t: seq<LineItem>, j: string)
    ensures j in StartedJobs(t) <==> AnyLoaded(t, j)
  {
    if AnyLoaded(t, j) {
      var x :| x in t && x.job == j && IsLoaded(x);
      assert x in Green(t);
    }
  }

  /** Strictly done jobs (ALL rows loaded) are started jobs (ANY row loaded). */
  lemma DoneJobsAreStarted(t: seq<LineItem>)
    ensures DoneJobs(t) <= StartedJobs(t)
  {
    forall j | j in DoneJobs(t)
      ensures j in StartedJobs(t)
    {
      var x :| x in t && x.job == j;
      assert x in Green(t);
    }
  }

  /** Blue rows belong to started jobs; Yellow and Red rows do not. */
  lemma BucketJobs(t: seq<LineItem>)
    ensures forall x :: x in Blue(t) ==> x.job in Jobs(Green(t))
    ensures forall x :: x in Yellow(t) ==> x.job !in Jobs(Green(t))
    ensures forall x :: x in Red(t) ==> x.job !in Jobs(Green(t))
  {
  }

  /** Yellow rows are packed, Red rows are not; an unloaded row of an unstarted job with no packing status is Red. */
  lemma BucketPacking(t: seq<LineItem>, x: LineItem)
    ensures x in Yellow(t) ==> IsPacked(x)
    ensures x in Red(t) ==> !IsPacked(x)
    ensures x in t && x.packing.None? && !IsLoaded(x) && !IsOverload(x) && x.job !in StartedJobs(t) ==> x in Red(t)
  {
    BucketMembership(t, x, RedNotPacked);
  }

  /** A row with no loading status is in neither Green nor Purple. */
  lemma MissingLoadingIsPending(t: seq<LineItem>, x: LineItem)
    requires x.loading.None?
    ensures x !in Green(t) && x !in Purple(t)
  {
  }

  // ---------------------------------------------------------------------
  // Per-bucket statistics

  /** `get_stats`: distinct jobs and distinct orders, `(0, 0)` for an empty bucket. */
  function Stats(s: seq<LineItem>): (r: (nat, nat))
    ensures s == [] ==> r == (0, 0)
    ensures s != [] ==> 1 <= r.0 <= |s| && 1 <= r.1 <= |s|
    ensures r.0 == |Jobs(s)| && r.1 == |Orders(s)|
  {
    DistinctAtMostRows(s);
    if s == [] then (0, 0)
    else
      assert s[0].job in Jobs(s) && s[0].order in Orders(s);
      (|Jobs(s)|, |Orders(s)|)
  }

  // ---------------------------------------------------------------------
  // The row status next to the buckets

  /** What `str()` makes of a status: a missing one reads `None`. */
  function Shown(s: Option<string>): string {
    s.GetOr(N.NoneText)
  }

  /** The row-level label of a line item, from its own two statuses. */
  function RowStatus(x: LineItem): N.JobStatus {
    N.DetermineStatus(Shown(x.packing), Shown(x.loading))
  }

  /**
   * The two classifications agree where they overlap: a row is labelled
   * Overload exactly when it is an overload row, and a Complete row is
   * loaded and packed, hence Green.
   */
  lemma RowStatusAndBuckets(x: LineItem)
    ensures RowStatus(x) == N.Overload <==> IsOverload(x)
    ensures RowStatus(x) == N.Complete <==> IsLoaded(x) && IsPacked(x)
  {
    assert !Contains(N.NoneText, "OVERLOAD");
  }

  /**
   * A row can be Green while labelled In Progress: its own packing is not
   * done though its loading is.
   */
  lemma LoadedButInProgress(x: LineItem)
    requires x.loading == Some("LOADING DONE") && x.packing == Some("PENDING")
    ensures x in Green([x]) && RowStatus(x) == N.InProgress
  {
    assert IsLoaded(x) && !IsPacked(x);
    LoadedIsNotOverload(x);
    RowStatusAndBuckets(x);
    assert x in [x];
  }

  /**
   * A job with one loaded row and one pending row: the loaded row is Green
   * and the pending one Blue, whatever its own packing says.
   */
  lemma StartedJobScenario(a: LineItem, b: LineItem)
    requires a.job == b.job
    requires a.loading == Some("LOADING DONE") && b.loading == Some("PENDING")
    ensures a in Green([a, b]) && b in Blue([a, b])
  {
    var t := [a, b];
    PendingIsNeither(b);
    assert IsLoaded(a);
    assert a in t && b in t;
    assert a in Green(t);
    assert a.job in StartedJobs(t);
    BucketMembership(t, b, BlueInProgress);
  }

  /** A `PENDING` loading status is neither finished nor an overload. */
  lemma PendingIsNeither(x: LineItem)
    requires x.loading == Some("PENDING")
    ensures !IsLoaded(x) && !IsOverload(x)
  {
    assert |"PENDING"| < |"OVERLOAD"|;
  }
}
