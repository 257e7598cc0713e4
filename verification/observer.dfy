/** The job counts of `distributed_jobman/observer.py`: how many jobs of a
    table are in each state, and how many jobs the cluster's queue holds
    once array requests are expanded. */
module Observer {
  import opened Wrappers
  import opened Values
  import Text
  import Seqs
  import Database
  import Jobs

  // ---------------------------------------------------------------------
  // counts per state

  /** The counting functions as written call `_load_pending_jobs` and its
      siblings, which the job module does not define: the attribute lookup
      raises before anything is loaded, whatever the table. */
  function CountAsWritten(table: string): (r: Result<nat>)
    ensures r.Err?
  {
    Err(AttributeError)
  }

  /** The size of what a load returned. */
  function Size(loaded: Result<seq<Record>>): (r: Result<nat>)
    ensures r.Ok? <==> loaded.Ok?
    ensures r.Ok? ==> r.value == |loaded.value|
    ensures r.Err? ==> r.error == loaded.error
  {
    match loaded
    case Err(e) => Err(e)
    case Ok(jobs) => Ok(|jobs|)
  }

  /** `count_pending_jobs`, `count_running_jobs` and `count_completed_jobs`
      with the loader they evidently mean: the number of jobs stored with
      the given status. */
  function CountByStatus(db: Database.Db, table: string, status: Value): (r: Result<nat>)
    ensures r.Ok? ==> Jobs.LoadByStatus(db, table, status).result.Ok?
    ensures r.Ok? ==> r.value == |Jobs.LoadByStatus(db, table, status).result.value|
  {
    Size(Jobs.LoadByStatus(db, table, status).result)
  }

  /** `count_broken_jobs` with `load_broken_jobs`. */
  function CountBroken(db: Database.Db, table: string): (r: Result<nat>)
    ensures r.Ok? ==> Jobs.LoadBrokenJobs(db, table).result.Ok?
    ensures r.Ok? ==> r.value == |Jobs.LoadBrokenJobs(db, table).result.value|
  {
    Size(Jobs.LoadBrokenJobs(db, table).result)
  }

  /** Every pending job counted satisfies `is_pending`. */
  lemma CountedPendingArePending(db: Database.Db, table: string, k: nat)
    requires CountByStatus(db, table, Jobs.START).Ok?
    requires k < CountByStatus(db, table, Jobs.START).value
    ensures Jobs.IsPending(Jobs.LoadByStatus(db, table, Jobs.START).result.value[k]) == Ok(true)
  {
    Jobs.LoadByStatusMatches(db, table, Jobs.START, k);
  }

  /** The broken jobs are never more than the jobs of the table. */
  lemma BrokenAtMostAll(db: Database.Db, table: string)
    requires CountBroken(db, table).Ok?
    ensures Database.Load(db, table, None, VNone).result.Ok?
    ensures CountBroken(db, table).value <= |Database.Load(db, table, None, VNone).result.value|
  {
  }

  // ---------------------------------------------------------------------
  // array requests

  /** `_count_array_request`: one job, unless the job is an array request,
      in which case `"lo-hi"` stands for `hi - lo + 1` jobs. The presence
      test reads `array_request` but the value is read from
      `job_array_request`. */
  function CountArrayRequest(job: Record): (r: Result<int>)
    ensures "array_request" !in job ==> r == Ok(1)
    ensures "array_request" in job && "job_array_request" !in job ==> r == Err(KeyError)
    ensures "array_request" in job && "job_array_request" in job && !job["job_array_request"].Str?
            ==> r == Err(AttributeError)
    ensures ("array_request" in job && "job_array_request" in job && job["job_array_request"].Str?
             && |Text.Split(job["job_array_request"].s, "-")| != 2) ==> r == Err(ValueError)
  {
    if "array_request" !in job then Ok(1)
    else
      var request :- Get(job, "job_array_request");
      match request
      case Str(s) => RangeSize(s)
      case _ => Err(AttributeError)
  }

  /** The number of indices a `"lo-hi"` request covers. */
  function RangeSize(s: string): (r: Result<int>)
    ensures |Text.Split(s, "-")| != 2 ==> r == Err(ValueError)
    ensures r.Err? ==> r.error == ValueError
    ensures var ids := Text.Split(s, "-");
            r.Ok? <==> |ids| == 2 && Text.ParseInt(ids[0]).Some? && Text.ParseInt(ids[1]).Some?
    ensures var ids := Text.Split(s, "-");
            r.Ok? ==> r.value == Text.ParseInt(ids[1]).value - Text.ParseInt(ids[0]).value + 1
  {
    var ids := Text.Split(s, "-");
    if |ids| != 2 then Err(ValueError)
    else
      match (Text.ParseInt(ids[1]), Text.ParseInt(ids[0]))
      case (Some(hi), Some(lo)) => Ok(hi - lo + 1)
      case _ => Err(ValueError)
  }

  /** The text of the request for indices `lo` to `hi`. */
  function RangeText(lo: nat, hi: nat): string {
    Text.IntToString(lo) + "-" + Text.IntToString(hi)
  }

  lemma NatTextUndashed(n: nat)
    ensures '-' !in Text.IntToString(n)
  {
    assert Text.AllDigits(Text.NatToString(n));
  }

  /** The request text splits at its dash into the two bounds. */
  lemma RangeSplit(lo: nat, hi: nat)
    ensures Text.Split(RangeText(lo, hi), "-") == [Text.IntToString(lo), Text.IntToString(hi)]
  {
    var parts := [Text.IntToString(lo), Text.IntToString(hi)];
    NatTextUndashed(lo);
    NatTextUndashed(hi);
    assert parts[1..] == [Text.IntToString(hi)];
    assert Text.Join("-", parts) == RangeText(lo, hi);
    Text.SplitJoin(parts, '-');
  }

  /** A request for the indices `lo` to `hi` counts `hi - lo + 1` jobs. */
  lemma RangeCounted(job: Record, lo: nat, hi: nat)
    requires "array_request" in job
    requires "job_array_request" in job && job["job_array_request"] == Str(RangeText(lo, hi))
    ensures CountArrayRequest(job) == Ok(hi - lo + 1)
  {
    RangeSized(lo, hi);
  }

  lemma RangeSized(lo: nat, hi: nat)
    ensures RangeSize(RangeText(lo, hi)) == Ok(hi - lo + 1)
  {
    RangeSplit(lo, hi);
    Text.IntToStringRoundTrip(lo);
    Text.IntToStringRoundTrip(hi);
    RangeOfBounds(RangeText(lo, hi), Text.IntToString(lo), Text.IntToString(hi), lo, hi);
  }

  lemma RangeOfBounds(s: string, a: string, b: string, lo: int, hi: int)
    requires Text.Split(s, "-") == [a, b]
    requires Text.ParseInt(a) == Some(lo) && Text.ParseInt(b) == Some(hi)
    ensures RangeSize(s) == Ok(hi - lo + 1)
  {
    var ids := Text.Split(s, "-");
    assert |ids| == 2 && ids[0] == a && ids[1] == b;
    assert (Text.ParseInt(ids[1]), Text.ParseInt(ids[0])) == (Some(hi), Some(lo));
  }

  // ---------------------------------------------------------------------
  // jobs submitted

  /** Adding two counts in order: the first error aborts the sum. */
  function AddCounts(x: Result<int>, y: Result<int>): (r: Result<int>)
    ensures r.Ok? <==> x.Ok? && y.Ok?
    ensures r.Ok? ==> r.value == x.value + y.value
    ensures x.Err? ==> r == x
    ensures x.Ok? && y.Err? ==> r == y
  {
    if x.Err? then x else if y.Err? then y else Ok(x.value + y.value)
  }

  lemma AddCountsAssociative(x: Result<int>, y: Result<int>, z: Result<int>)
    ensures AddCounts(x, AddCounts(y, z)) == AddCounts(AddCounts(x, y), z)
  {
  }

  /** `count_submitted_jobs` over a queue listing: the sum of the per-job
      counts; the first job whose count raises aborts the sum. */
  function CountSubmitted(jobs: seq<Record>): (r: Result<int>)
    ensures |jobs| == 0 ==> r == Ok(0)
    ensures r.Err? ==> exists k :: 0 <= k < |jobs| && CountArrayRequest(jobs[k]) == Err(r.error)
    decreases |jobs|
  {
    if |jobs| == 0 then Ok(0)
    else AddCounts(CountArrayRequest(jobs[0]), CountSubmitted(jobs[1..]))
  }

  /** The sum succeeds exactly when every job's count does. */
  lemma {:induction false} CountSubmittedOk(jobs: seq<Record>)
    ensures CountSubmitted(jobs).Ok? <==> forall k :: 0 <= k < |jobs| ==> CountArrayRequest(jobs[k]).Ok?
    decreases |jobs|
  {
    if |jobs| > 0 {
      CountSubmittedOk(jobs[1..]);
      assert forall k :: 0 < k < |jobs| ==> jobs[k] == jobs[1..][k - 1];
      if CountSubmitted(jobs).Err? && CountArrayRequest(jobs[0]).Ok? {
        var k :| 0 <= k < |jobs[1..]| && CountArrayRequest(jobs[1..][k]).Err?;
        assert jobs[1..][k] == jobs[k + 1];
      }
    }
  }

  /** Submitting two listings counts their sum; when a job's count raises,
      the first such error is the result. */
  lemma {:induction false} CountSubmittedAppend(a: seq<Record>, b: seq<Record>)
    ensures CountSubmitted(a + b) == AddCounts(CountSubmitted(a), CountSubmitted(b))
    decreases |a|
  {
    if |a| == 0 {
      assert a + b == b;
    } else {
      var a1, ab := a[1..], a + b;
      CountSubmittedAppend(a1, b);
      assert ab[0] == a[0] && ab[1..] == a1 + b;
      AddCountsAssociative(CountArrayRequest(a[0]), CountSubmitted(a1), CountSubmitted(b));
    }
  }

  /** A listing without array requests counts one per job. */
  lemma {:induction false} CountSubmittedPlain(jobs: seq<Record>)
    requires forall k :: 0 <= k < |jobs| ==> "array_request" !in jobs[k]
    ensures CountSubmitted(jobs) == Ok(|jobs|)
    decreases |jobs|
  {
    if |jobs| > 0 {
      assert forall k :: 0 <= k < |jobs[1..]| ==> jobs[1..][k] == jobs[k + 1];
      CountSubmittedPlain(jobs[1..]);
    }
  }
}
