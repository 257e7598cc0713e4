/** The decisions the commands of `distributed_jobman/main.py` take between
    loading and storing: how many jobs a monitoring pass may submit, what
    `launch` hands to the dispatcher, how `list_jobs` summarises a table,
    which status `set_jobs` writes, and whether `run` may start a job.
    What the commands read from the store, the cluster's queue and the
    environment is passed in. */
module Commands {
  import opened Wrappers
  import opened Values
  import Text
  import Seqs
  import Database
  import Jobs
  import Experiments

  function Min(a: int, b: int): int {
    if a <= b then a else b
  }

  function Max(a: int, b: int): int {
    if a >= b then a else b
  }

  // ---------------------------------------------------------------------
  // the admission quota

  /** The arithmetic of `monitor_single_experiment`: the room the user has
      under `max_running`, floored at zero, capped by the jobs waiting, and,
      when `max_queued` is positive, capped again by the room left in the
      queue as a whole. That last room is not floored. */
  function Quota(waiting: int, userSubmitted: int, totalSubmitted: int, maxRunning: int, maxQueued: int): (q: int)
    ensures q <= waiting && q <= Max(maxRunning - userSubmitted, 0)
    ensures maxQueued > 0 ==> q <= maxQueued - totalSubmitted
    ensures || q == waiting
            || q == Max(maxRunning - userSubmitted, 0)
            || (maxQueued > 0 && q == maxQueued - totalSubmitted)
  {
    var allowed := Min(waiting, Max(maxRunning - userSubmitted, 0));
    if maxQueued > 0 then Min(maxQueued - totalSubmitted, allowed) else allowed
  }

  /** Without a queue ceiling the quota is the waiting jobs capped by the
      user's room, and is never negative. */
  lemma QuotaWithoutCeiling(waiting: nat, userSubmitted: int, totalSubmitted: int, maxRunning: int, maxQueued: int)
    requires maxQueued <= 0
    ensures Quota(waiting, userSubmitted, totalSubmitted, maxRunning, maxQueued)
            == Min(waiting, Max(maxRunning - userSubmitted, 0))
    ensures Quota(waiting, userSubmitted, totalSubmitted, maxRunning, maxQueued) >= 0
  {
  }

  /** With a ceiling the quota is the queue's room capped by the quota
      without one, so an over-full queue gives a negative quota. */
  lemma QuotaWithCeiling(waiting: nat, userSubmitted: int, totalSubmitted: int, maxRunning: int, maxQueued: int)
    requires maxQueued > 0
    ensures Quota(waiting, userSubmitted, totalSubmitted, maxRunning, maxQueued)
            == Min(maxQueued - totalSubmitted, Quota(waiting, userSubmitted, totalSubmitted, maxRunning, 0))
    ensures totalSubmitted > maxQueued ==> Quota(waiting, userSubmitted, totalSubmitted, maxRunning, maxQueued) < 0
  {
  }

  /** Lowering `max_running` never raises the quota. */
  lemma QuotaMonotone(waiting: int, userSubmitted: int, totalSubmitted: int, lower: int, higher: int, maxQueued: int)
    requires lower <= higher
    ensures Quota(waiting, userSubmitted, totalSubmitted, lower, maxQueued)
            <= Quota(waiting, userSubmitted, totalSubmitted, higher, maxQueued)
  {
  }

  /** The counts one pass reads: `count_pending_jobs` of the experiment's
      table, `count_submitted_jobs` for the user, and `count_submitted_jobs`
      for everyone. Each may have raised. */
  datatype Counts = Counts(waiting: Result<int>, userSubmitted: Result<int>, totalSubmitted: Result<int>)

  /** A numeric cluster setting `experiment["clusters"][cluster][key]`. */
  function Setting(experiment: Record, cluster: string, key: string): (r: Result<int>)
    ensures r.Ok? <==> Jobs.ClusterSetting(experiment, cluster, key).Ok?
                       && Numeric(Jobs.ClusterSetting(experiment, cluster, key).value).Some?
    ensures r.Ok? ==> Some(r.value) == Numeric(Jobs.ClusterSetting(experiment, cluster, key).value)
  {
    var v :- Jobs.ClusterSetting(experiment, cluster, key);
    match Numeric(v)
    case Some(i) => Ok(i)
    case None => Err(TypeError)
  }

  /** Python 2's `v > 0` on a setting: numbers by value; `None` sorts
      below every number, and strings, lists and dicts above. */
  predicate AboveZero(v: Value) {
    match v
    case VNone => false
    case Bool(b) => b
    case Int(i) => i > 0
    case _ => true
  }

  /** The `max_queued` the quota is capped with: the number, or 0 (no
      cap) for anything else. */
  function CeilingOf(v: Value): int {
    match Numeric(v)
    case Some(q) => q
    case None => 0
  }

  /** `monitor_single_experiment`: the experiment's name and table are
      read for the printout and the pending count, then the counts and
      settings in the order the source reads them, the total only when
      `max_queued > 0` holds; the first read that raises is the result. A
      `max_queued` of `None` is never above zero, so it means no cap; a
      string, list or dict is above zero and then cannot be subtracted. */
  function MonitorSingle(experiment: Record, cluster: string, counts: Counts): (r: Result<int>)
    ensures "name" !in experiment ==> r == Err(KeyError)
    ensures "name" in experiment && "table" !in experiment ==> r == Err(KeyError)
    ensures "name" in experiment && "table" in experiment && counts.waiting.Err? ==> r == Err(counts.waiting.error)
    ensures "name" in experiment && "table" in experiment && counts.waiting.Ok? && counts.userSubmitted.Err?
            ==> r == Err(counts.userSubmitted.error)
    ensures r.Ok? <==> && "name" in experiment && "table" in experiment
                       && counts.waiting.Ok? && counts.userSubmitted.Ok?
                       && Setting(experiment, cluster, "max_running").Ok?
                       && Jobs.ClusterSetting(experiment, cluster, "max_queued").Ok?
                       && var q := Jobs.ClusterSetting(experiment, cluster, "max_queued").value;
                          (q.VNone? || Numeric(q).Some?) && (AboveZero(q) ==> counts.totalSubmitted.Ok?)
    ensures r.Ok? ==> r.value <= counts.waiting.value
    ensures r.Ok? ==>
              var q := Jobs.ClusterSetting(experiment, cluster, "max_queued").value;
              r.value == Quota(counts.waiting.value, counts.userSubmitted.value,
                               if AboveZero(q) then counts.totalSubmitted.value else 0,
                               Setting(experiment, cluster, "max_running").value, CeilingOf(q))
  {
    var _ :- Get(experiment, "name");
    var _ :- Get(experiment, "table");
    var waiting :- counts.waiting;
    var userSubmitted :- counts.userSubmitted;
    var maxRunning :- Setting(experiment, cluster, "max_running");
    var maxQueued :- Jobs.ClusterSetting(experiment, cluster, "max_queued");
    if !AboveZero(maxQueued) then
      Ok(Quota(waiting, userSubmitted, 0, maxRunning, CeilingOf(maxQueued)))
    else
      var totalSubmitted :- counts.totalSubmitted;
      if Numeric(maxQueued).None? then Err(TypeError)
      else Ok(Quota(waiting, userSubmitted, totalSubmitted, maxRunning, CeilingOf(maxQueued)))
  }

  /** A `max_queued` that is a string, a list or a dict passes the `> 0`
      test, so the total is read, and then the subtraction raises. */
  lemma MonitorCeilingNotNumber(experiment: Record, cluster: string, counts: Counts)
    requires "name" in experiment && "table" in experiment
    requires counts.waiting.Ok? && counts.userSubmitted.Ok? && Setting(experiment, cluster, "max_running").Ok?
    requires Jobs.ClusterSetting(experiment, cluster, "max_queued").Ok?
    requires var q := Jobs.ClusterSetting(experiment, cluster, "max_queued").value; q.Str? || q.List? || q.Dict?
    ensures MonitorSingle(experiment, cluster, counts)
            == if counts.totalSubmitted.Err? then Err(counts.totalSubmitted.error) else Err(TypeError)
  {
  }

  /** A `max_queued` of `None` means no cap: the total is not read, and the
      quota is the waiting jobs capped by the user's room. */
  lemma MonitorCeilingNone(experiment: Record, cluster: string, counts: Counts)
    requires "name" in experiment && "table" in experiment
    requires counts.waiting.Ok? && counts.userSubmitted.Ok? && Setting(experiment, cluster, "max_running").Ok?
    requires Jobs.ClusterSetting(experiment, cluster, "max_queued") == Ok(VNone)
    ensures MonitorSingle(experiment, cluster, counts)
            == Ok(Min(counts.waiting.value, Max(Setting(experiment, cluster, "max_running").value - counts.userSubmitted.value, 0)))
  {
  }

  /** One experiment as a pass over it sees it. */
  datatype Pass = Pass(experiment: Record, counts: Counts)

  /** The quota of every pass in turn; the first pass that raises aborts
      the rest. */
  function Quotas(cluster: string, passes: seq<Pass>): (r: Result<seq<int>>)
    ensures r.Ok? <==> forall k :: 0 <= k < |passes| ==> MonitorSingle(passes[k].experiment, cluster, passes[k].counts).Ok?
    ensures r.Ok? ==> |r.value| == |passes|
    ensures r.Ok? ==> forall k :: 0 <= k < |passes| ==>
                        MonitorSingle(passes[k].experiment, cluster, passes[k].counts) == Ok(r.value[k])
    decreases |passes|
  {
    if |passes| == 0 then Ok([])
    else
      var first :- MonitorSingle(passes[0].experiment, cluster, passes[0].counts);
      match Quotas(cluster, passes[1..])
      case Err(e) =>
        assert exists k :: 0 < k < |passes| && MonitorSingle(passes[k].experiment, cluster, passes[k].counts).Err? by {
          var k :| 0 <= k < |passes[1..]| && MonitorSingle(passes[1..][k].experiment, cluster, passes[1..][k].counts).Err?;
          assert passes[1..][k] == passes[k + 1];
        }
        Err(e)
      case Ok(rest) =>
        assert forall k :: 0 < k < |passes| ==> passes[k] == passes[1..][k - 1];
        Ok([first] + rest)
  }

  /** `monitor`: refuses to run without a cluster, then works out each
      experiment's quota without submitting anything. */
  function Monitor(cluster: Option<string>, passes: seq<Pass>): (r: Result<seq<int>>)
    ensures cluster.None? ==> r == Err(ValueError)
    ensures cluster.Some? ==> r == Quotas(cluster.value, passes)
  {
    match cluster
    case None => Err(ValueError)
    case Some(c) => Quotas(c, passes)
  }

  // ---------------------------------------------------------------------
  // launching

  /** What a launch pass does with an experiment. */
  datatype Decision = Hold | Submit(count: int)

  /** The decision of `launch` for one quota: submit only when the quota is
      positive, at most `limit` jobs when a limit is given (a limit of 0
      means none). */
  function Dispatch(quota: int, limit: int): (d: Decision)
    ensures d.Submit? <==> quota > 0
    ensures d.Submit? ==> d.count <= quota && (limit != 0 ==> d.count <= limit)
    ensures d.Submit? ==> d.count == quota || d.count == limit
    ensures d.Submit? && limit >= 0 ==> d.count > 0
  {
    if quota > 0 then
      if limit != 0 && quota > limit then Submit(limit) else Submit(quota)
    else Hold
  }

  /** The limit is not checked for sign: a negative limit turns every
      positive quota into a request for a negative number of jobs. */
  lemma DispatchNegativeLimit(quota: int, limit: int)
    requires quota > 0 && limit < 0
    ensures Dispatch(quota, limit) == Submit(limit)
  {
  }

  /** One pass of `launch` over an experiment: its quota, the decision, and
      for a submission the dispatch command `submit_job` builds (whose
      missing table, `root`, `duree`, `mem` or `env` raises). */
  function LaunchPass(creds: Database.Credentials, cluster: string, limit: int, pass: Pass): (r: Result<Decision>)
    ensures r.Ok? <==> MonitorSingle(pass.experiment, cluster, pass.counts).Ok?
                       && var d := Dispatch(MonitorSingle(pass.experiment, cluster, pass.counts).value, limit);
                          (d.Submit? ==> Jobs.DispatchCommand(creds, cluster, pass.experiment, d.count).Ok?)
    ensures r.Ok? ==> r.value == Dispatch(MonitorSingle(pass.experiment, cluster, pass.counts).value, limit)
    ensures MonitorSingle(pass.experiment, cluster, pass.counts).Err? ==> r == Err(MonitorSingle(pass.experiment, cluster, pass.counts).error)
  {
    var quota :- MonitorSingle(pass.experiment, cluster, pass.counts);
    var d := Dispatch(quota, limit);
    if d.Submit? then
      var _ :- Jobs.DispatchCommand(creds, cluster, pass.experiment, d.count);
      Ok(d)
    else Ok(d)
  }

  /** The passes in turn; the first pass that raises aborts the rest. */
  function LaunchPasses(creds: Database.Credentials, cluster: string, limit: int, passes: seq<Pass>): (r: Result<seq<Decision>>)
    ensures r.Ok? <==> forall k :: 0 <= k < |passes| ==> LaunchPass(creds, cluster, limit, passes[k]).Ok?
    ensures r.Ok? ==> |r.value| == |passes|
    ensures r.Ok? ==> forall k :: 0 <= k < |passes| ==> LaunchPass(creds, cluster, limit, passes[k]) == Ok(r.value[k])
  {
    Sequence(PassResults(creds, cluster, limit, passes))
  }

  function PassResults(creds: Database.Credentials, cluster: string, limit: int, passes: seq<Pass>): (rs: seq<Result<Decision>>)
    ensures |rs| == |passes| && forall k :: 0 <= k < |passes| ==> rs[k] == LaunchPass(creds, cluster, limit, passes[k])
  {
    seq(|passes|, k requires 0 <= k < |passes| => LaunchPass(creds, cluster, limit, passes[k]))
  }

  /** `launch`: refuses to run without a cluster, then takes the
      experiments in the order given, deciding for each how many jobs to
      submit and building its dispatch command before moving on. */
  function Launch(creds: Database.Credentials, cluster: Option<string>, limit: int, passes: seq<Pass>): (r: Result<seq<Decision>>)
    ensures cluster.None? ==> r == Err(ValueError)
    ensures r.Ok? <==> cluster.Some? && forall k :: 0 <= k < |passes| ==> LaunchPass(creds, cluster.value, limit, passes[k]).Ok?
    ensures r.Ok? ==> Monitor(cluster, passes).Ok? && |r.value| == |passes|
    ensures r.Ok? ==> forall k :: 0 <= k < |passes| ==> r.value[k] == Dispatch(Monitor(cluster, passes).value[k], limit)
  {
    match cluster
    case None => Err(ValueError)
    case Some(c) =>
      var decisions :- LaunchPasses(creds, c, limit, passes);
      assert forall k :: 0 <= k < |passes| ==> MonitorSingle(passes[k].experiment, c, passes[k].counts).Ok? by {
        forall k | 0 <= k < |passes|
          ensures MonitorSingle(passes[k].experiment, c, passes[k].counts).Ok?
        {
          assert LaunchPass(creds, c, limit, passes[k]).Ok?;
        }
      }
      Ok(decisions)
  }

  /** Whatever a launch submits for an experiment, there were at least that
      many jobs waiting, and a positive count is submitted exactly when the
      experiment's quota is positive. */
  lemma LaunchWithinWaiting(creds: Database.Credentials, cluster: Option<string>, limit: int, passes: seq<Pass>, k: nat)
    requires Launch(creds, cluster, limit, passes).Ok? && k < |passes|
    ensures cluster.Some?
    ensures Launch(creds, cluster, limit, passes).value[k].Submit?
            <==> MonitorSingle(passes[k].experiment, cluster.value, passes[k].counts).value > 0
    ensures Launch(creds, cluster, limit, passes).value[k].Submit? ==>
              passes[k].counts.waiting.Ok? && Launch(creds, cluster, limit, passes).value[k].count <= passes[k].counts.waiting.value
  {
    var quotas := Monitor(cluster, passes).value;
    assert MonitorSingle(passes[k].experiment, cluster.value, passes[k].counts) == Ok(quotas[k]);
  }

  /** A launch stops at the first pass that raises, with that pass's error,
      whatever the passes after it would do. */
  lemma LaunchStopsAt(creds: Database.Credentials, cluster: string, limit: int, passes: seq<Pass>, k: nat)
    requires k < |passes|
    requires forall j :: 0 <= j < k ==> LaunchPass(creds, cluster, limit, passes[j]).Ok?
    requires LaunchPass(creds, cluster, limit, passes[k]).Err?
    ensures Launch(creds, Some(cluster), limit, passes) == Err(LaunchPass(creds, cluster, limit, passes[k]).error)
  {
    SequenceStopsAt(PassResults(creds, cluster, limit, passes), k);
  }

  /** An experiment with jobs to submit whose cluster settings lack `root`
      stops the launch there with `KeyError`, although monitoring it alone
      succeeds. */
  lemma LaunchNeedsRoot(creds: Database.Credentials, cluster: string, limit: int, passes: seq<Pass>, k: nat)
    requires k < |passes|
    requires forall j :: 0 <= j < k ==> LaunchPass(creds, cluster, limit, passes[j]).Ok?
    requires MonitorSingle(passes[k].experiment, cluster, passes[k].counts).Ok?
    requires MonitorSingle(passes[k].experiment, cluster, passes[k].counts).value > 0
    requires Jobs.ExperimentDbString(creds, passes[k].experiment).Ok?
    requires Jobs.ClusterSetting(passes[k].experiment, cluster, "root") == Err(KeyError)
    ensures Launch(creds, Some(cluster), limit, passes) == Err(KeyError)
  {
    LaunchStopsAt(creds, cluster, limit, passes, k);
  }

  // ---------------------------------------------------------------------
  // summarising ids

  function Self(s: string): string {
    s
  }

  /** `[str(job["id"]) for job in jobs]`: a job without an id raises. */
  function IdStrings(jobs: seq<Record>): (r: Result<seq<string>>)
    ensures r.Ok? <==> forall k :: 0 <= k < |jobs| ==> "id" in jobs[k]
    ensures r.Ok? ==> |r.value| == |jobs|
    ensures r.Ok? ==> forall k :: 0 <= k < |jobs| ==> r.value[k] == Render(jobs[k]["id"])
  {
    if forall k :: 0 <= k < |jobs| ==> "id" in jobs[k] then
      Ok(seq(|jobs|, k requires 0 <= k < |jobs| => Render(jobs[k]["id"])))
    else Err(KeyError)
  }

  /** `sorted(ids)[:maximum]`: the `maximum` smallest ids, in order; all
      of them when there are no more than `maximum`. */
  function Shown(ids: seq<string>, maximum: nat): (r: seq<string>)
    ensures |r| == Min(|ids|, maximum)
    ensures Seqs.SortedBy(r, Self)
    ensures multiset(r) <= multiset(ids)
    ensures forall k, x | 0 <= k < |r| && x in multiset(ids) - multiset(r) :: Seqs.StrLeq(r[k], x)
    ensures |ids| <= maximum ==> r == Seqs.SortBy(ids, Self)
  {
    var sorted := Seqs.SortBy(ids, Self);
    Seqs.SortBySorted(ids, Self);
    var n := Min(|ids|, maximum);
    SortedPrefix(sorted, n);
    sorted[..n]
  }

  /** A prefix of a sorted sequence is sorted, and no greater than anything
      after it. */
  lemma SortedPrefix(sorted: seq<string>, n: nat)
    requires Seqs.SortedBy(sorted, Self) && n <= |sorted|
    ensures Seqs.SortedBy(sorted[..n], Self)
    ensures multiset(sorted[..n]) <= multiset(sorted)
    ensures forall k, x | 0 <= k < n && x in multiset(sorted) - multiset(sorted[..n]) :: Seqs.StrLeq(sorted[k], x)
  {
    var r := sorted[..n];
    assert sorted == r + sorted[n..];
    assert multiset(sorted) == multiset(r) + multiset(sorted[n..]);
    forall k, x | 0 <= k < n && x in multiset(sorted) - multiset(r)
      ensures Seqs.StrLeq(sorted[k], x)
    {
      assert x in sorted[n..];
      var j :| 0 <= j < |sorted[n..]| && sorted[n..][j] == x;
      assert sorted[n + j] == x;
    }
  }

  const Ellipsis: string := ", ..."

  /** `_format_ids`: the shown ids joined by ", ", followed by ", ..." when
      some were left out. */
  function FormatIds(jobs: seq<Record>, maximum: nat): (r: Result<string>)
    ensures r.Ok? <==> IdStrings(jobs).Ok?
    ensures r.Ok? && |jobs| > maximum ==>
              |r.value| >= |Ellipsis| && r.value[|r.value| - |Ellipsis|..] == Ellipsis
              && r.value[..|r.value| - |Ellipsis|] == Text.Join(", ", Shown(IdStrings(jobs).value, maximum))
    ensures r.Ok? && |jobs| <= maximum ==> r.value == Text.Join(", ", Seqs.SortBy(IdStrings(jobs).value, Self))
  {
    var ids :- IdStrings(jobs);
    var shown := Text.Join(", ", Shown(ids, maximum));
    if |ids| > maximum then Ok(shown + Ellipsis) else Ok(shown)
  }

  /** Joined pieces end with the last piece. */
  lemma {:induction false} JoinEndsWithLast(sep: string, parts: seq<string>)
    requires |parts| > 0
    ensures var j := Text.Join(sep, parts);
            |j| >= |parts[|parts| - 1]| && j[|j| - |parts[|parts| - 1]|..] == parts[|parts| - 1]
    decreases |parts|
  {
    if |parts| > 1 {
      JoinEndsWithLast(sep, parts[1..]);
      assert parts[1..][|parts[1..]| - 1] == parts[|parts| - 1];
    }
  }

  /** With numeric ids, as the store assigns them, ", ..." closes the text
      exactly when there were more ids than shown. */
  lemma FormatIdsEllipsis(jobs: seq<Record>, maximum: nat)
    requires forall k :: 0 <= k < |jobs| ==> "id" in jobs[k] && jobs[k]["id"].Int? && jobs[k]["id"].i >= 0
    ensures FormatIds(jobs, maximum).Ok?
    ensures var r := FormatIds(jobs, maximum).value;
            (|r| >= |Ellipsis| && r[|r| - |Ellipsis|..] == Ellipsis) <==> |jobs| > maximum
  {
    var r := FormatIds(jobs, maximum).value;
    if |jobs| <= maximum {
      assert r == Text.Join(", ", Seqs.SortBy(IdStrings(jobs).value, Self));
      SortedIdsEndInDigit(jobs);
      if |r| >= |Ellipsis| {
        assert r[|r| - 1] == r[|r| - |Ellipsis|..][|Ellipsis| - 1];
      }
    }
  }

  /** All the ids joined in order end in a digit, when there are any. */
  lemma SortedIdsEndInDigit(jobs: seq<Record>)
    requires forall k :: 0 <= k < |jobs| ==> "id" in jobs[k] && jobs[k]["id"].Int? && jobs[k]["id"].i >= 0
    ensures var r := Text.Join(", ", Seqs.SortBy(IdStrings(jobs).value, Self));
            |r| == 0 || Text.IsDigit(r[|r| - 1])
  {
    var ids := IdStrings(jobs).value;
    forall s | s in ids
      ensures |s| > 0 && Text.IsDigit(s[|s| - 1])
    {
      IdStringEndsInDigit(jobs, s);
    }
    SortedEndInDigit(ids);
  }

  /** Strings that all end in a digit, sorted and joined, end in a digit. */
  lemma SortedEndInDigit(ids: seq<string>)
    requires forall s | s in ids :: |s| > 0 && Text.IsDigit(s[|s| - 1])
    ensures var r := Text.Join(", ", Seqs.SortBy(ids, Self));
            |r| == 0 || Text.IsDigit(r[|r| - 1])
  {
    var sorted := Seqs.SortBy(ids, Self);
    if |sorted| > 0 {
      var last := sorted[|sorted| - 1];
      assert last in multiset(sorted);
      assert last in ids;
      JoinEndsWithLast(", ", sorted);
    }
  }

  /** The text of a numeric id ends in a digit, so never in ", ...". */
  lemma IdStringEndsInDigit(jobs: seq<Record>, s: string)
    requires forall k :: 0 <= k < |jobs| ==> "id" in jobs[k] && jobs[k]["id"].Int? && jobs[k]["id"].i >= 0
    requires s in IdStrings(jobs).value
    ensures |s| > 0 && Text.IsDigit(s[|s| - 1])
  {
    var ids := IdStrings(jobs).value;
    var k :| 0 <= k < |ids| && ids[k] == s;
    assert s == Text.NatToString(jobs[k]["id"].i);
  }

  // ---------------------------------------------------------------------
  // listing jobs

  /** The jobs of a table sorted by status, each list in table order. */
  datatype Buckets = Buckets(waiting: seq<Record>, running: seq<Record>, completed: seq<Record>, broken: seq<Record>)

  function Size(b: Buckets): nat {
    |b.waiting| + |b.running| + |b.completed| + |b.broken|
  }

  predicate PendingJob(job: Record) {
    Jobs.IsPending(job) == Ok(true)
  }

  predicate RunningJob(job: Record) {
    Jobs.IsRunning(job) == Ok(true)
  }

  predicate CompletedJob(job: Record) {
    Jobs.IsCompleted(job) == Ok(true)
  }

  /** The loop of `list_jobs`: each job goes to the first bucket whose
      predicate it satisfies, or to none; a job without a status raises. */
  function Bucket(jobs: seq<Record>): (r: Result<Buckets>)
    ensures r.Ok? <==> forall k :: 0 <= k < |jobs| ==> Jobs.StatusOf(jobs[k]).Ok?
    ensures r.Ok? ==> Size(r.value) <= |jobs|
    decreases |jobs|
  {
    if |jobs| == 0 then Ok(Buckets([], [], [], []))
    else
      var job := jobs[0];
      var pending :- Jobs.IsPending(job);
      match Bucket(jobs[1..])
      case Err(e) =>
        assert exists k :: 0 < k < |jobs| && Jobs.StatusOf(jobs[k]).Err? by {
          var k :| 0 <= k < |jobs[1..]| && Jobs.StatusOf(jobs[1..][k]).Err?;
          assert jobs[1..][k] == jobs[k + 1];
        }
        Err(e)
      case Ok(b) =>
        assert forall k :: 0 < k < |jobs| ==> jobs[k] == jobs[1..][k - 1];
        if pending then Ok(b.(waiting := [job] + b.waiting))
        else if Jobs.IsRunning(job).value then Ok(b.(running := [job] + b.running))
        else if Jobs.IsCompleted(job).value then Ok(b.(completed := [job] + b.completed))
        else if Jobs.IsBroken(job).value then Ok(b.(broken := [job] + b.broken))
        else Ok(b)
  }

  /** Since the predicates exclude each other, each bucket holds exactly the
      jobs satisfying its predicate, in table order: the waiting jobs ... */
  lemma {:induction false} WaitingFiltered(jobs: seq<Record>)
    requires Bucket(jobs).Ok?
    ensures Bucket(jobs).value.waiting == Seqs.Filter(jobs, PendingJob)
    decreases |jobs|
  {
    if |jobs| > 0 {
      assert forall k :: 0 <= k < |jobs[1..]| ==> jobs[1..][k] == jobs[k + 1];
      WaitingFiltered(jobs[1..]);
      Jobs.PredicatesExclusive(jobs[0]);
    }
  }

  /** ... the running jobs ... */
  lemma {:induction false} RunningFiltered(jobs: seq<Record>)
    requires Bucket(jobs).Ok?
    ensures Bucket(jobs).value.running == Seqs.Filter(jobs, RunningJob)
    decreases |jobs|
  {
    if |jobs| > 0 {
      assert forall k :: 0 <= k < |jobs[1..]| ==> jobs[1..][k] == jobs[k + 1];
      RunningFiltered(jobs[1..]);
      Jobs.PredicatesExclusive(jobs[0]);
    }
  }

  /** ... the completed jobs ... */
  lemma {:induction false} CompletedFiltered(jobs: seq<Record>)
    requires Bucket(jobs).Ok?
    ensures Bucket(jobs).value.completed == Seqs.Filter(jobs, CompletedJob)
    decreases |jobs|
  {
    if |jobs| > 0 {
      assert forall k :: 0 <= k < |jobs[1..]| ==> jobs[1..][k] == jobs[k + 1];
      CompletedFiltered(jobs[1..]);
      Jobs.PredicatesExclusive(jobs[0]);
    }
  }

  /** ... and the broken jobs. */
  lemma {:induction false} BrokenFiltered(jobs: seq<Record>)
    requires Bucket(jobs).Ok?
    ensures Bucket(jobs).value.broken == Seqs.Filter(jobs, Jobs.BrokenJob)
    decreases |jobs|
  {
    if |jobs| > 0 {
      assert forall k :: 0 <= k < |jobs[1..]| ==> jobs[1..][k] == jobs[k + 1];
      BrokenFiltered(jobs[1..]);
      Jobs.PredicatesExclusive(jobs[0]);
    }
  }

  /** One line of the summary: how many jobs, and which. */
  datatype Line = Line(count: nat, ids: string)

  /** What `list_jobs` prints for a table. */
  datatype Summary = Summary(total: nat, waiting: Line, running: Line, completed: Line, broken: Line)

  function Describe(jobs: seq<Record>): (r: Result<Line>)
    ensures r.Ok? <==> FormatIds(jobs, 20).Ok?
    ensures r.Ok? ==> r.value.count == |jobs| && r.value.ids == FormatIds(jobs, 20).value
  {
    var ids :- FormatIds(jobs, 20);
    Ok(Line(|jobs|, ids))
  }

  /** `list_jobs` over the jobs it loaded: the total, then for each bucket
      its size and its first twenty ids. */
  function ListJobs(jobs: seq<Record>): (r: Result<Summary>)
    ensures r.Ok? ==> Bucket(jobs).Ok? && r.value.total == |jobs|
    ensures r.Ok? ==> r.value.waiting.count + r.value.running.count + r.value.completed.count + r.value.broken.count
                      <= r.value.total
    ensures r.Ok? <==> Bucket(jobs).Ok?
                       && FormatIds(Seqs.Filter(jobs, PendingJob), 20).Ok?
                       && FormatIds(Seqs.Filter(jobs, RunningJob), 20).Ok?
                       && FormatIds(Seqs.Filter(jobs, CompletedJob), 20).Ok?
                       && FormatIds(Seqs.Filter(jobs, Jobs.BrokenJob), 20).Ok?
    ensures r.Ok? ==> r.value.waiting == Line(|Seqs.Filter(jobs, PendingJob)|, FormatIds(Seqs.Filter(jobs, PendingJob), 20).value)
    ensures r.Ok? ==> r.value.running == Line(|Seqs.Filter(jobs, RunningJob)|, FormatIds(Seqs.Filter(jobs, RunningJob), 20).value)
    ensures r.Ok? ==> r.value.completed
                      == Line(|Seqs.Filter(jobs, CompletedJob)|, FormatIds(Seqs.Filter(jobs, CompletedJob), 20).value)
    ensures r.Ok? ==> r.value.broken
                      == Line(|Seqs.Filter(jobs, Jobs.BrokenJob)|, FormatIds(Seqs.Filter(jobs, Jobs.BrokenJob), 20).value)
  {
    var b :- Bucket(jobs);
    WaitingFiltered(jobs);
    RunningFiltered(jobs);
    CompletedFiltered(jobs);
    BrokenFiltered(jobs);
    var waiting :- Describe(b.waiting);
    var running :- Describe(b.running);
    var completed :- Describe(b.completed);
    var broken :- Describe(b.broken);
    Ok(Summary(|jobs|, waiting, running, completed, broken))
  }

  // ---------------------------------------------------------------------
  // changing the status of jobs

  /** The kind of job a status name on the command line stands for. */
  function KindNamed(name: string): Option<Jobs.Kind> {
    match name
    case "pending" => Some(Jobs.Pending)
    case "running" => Some(Jobs.Running)
    case "completed" => Some(Jobs.Completed)
    case "broken" => Some(Jobs.Broken)
    case _ => None
  }

  /** The status code `set_jobs` writes for a target name. A name it does
      not know leaves the code unbound, and reading it raises. */
  function TargetStatus(newStatus: string): (r: Result<Value>)
    ensures r.Ok? <==> newStatus in {"pending", "running", "completed"}
    ensures r.Ok? ==> Jobs.KindOf(r.value) == KindNamed(newStatus)
    ensures r.Err? ==> r.error == NameError
  {
    match newStatus
    case "pending" => Ok(Jobs.START)
    case "running" => Ok(Jobs.RUNNING)
    case "completed" => Ok(Jobs.DONE)
    case _ => Err(NameError)
  }

  /** The jobs `set_jobs` selects by the status named. A name it does not
      know loads nothing and leaves the job list unbound. */
  function SelectJobs(db: Database.Db, table: string, status: string): (s: Database.Step<seq<Record>>)
    ensures s.db.tables == db.tables
    ensures s.result.Ok? ==> KindNamed(status).Some?
    ensures KindNamed(status).None? ==> s.result == Err(NameError)
  {
    match status
    case "pending" => Jobs.LoadByStatus(db, table, Jobs.START)
    case "broken" => Jobs.LoadBrokenJobs(db, table)
    case "completed" => Jobs.LoadByStatus(db, table, Jobs.DONE)
    case "running" => Jobs.LoadByStatus(db, table, Jobs.RUNNING)
    case _ => Database.Step(Err(NameError), db)
  }

  /** Every job selected is of the kind named. */
  lemma SelectedOfKind(db: Database.Db, table: string, status: string, k: nat)
    requires SelectJobs(db, table, status).result.Ok?
    requires k < |SelectJobs(db, table, status).result.value|
    ensures Jobs.StatusOf(SelectJobs(db, table, status).result.value[k]).Ok?
    ensures Jobs.KindOf(Jobs.StatusOf(SelectJobs(db, table, status).result.value[k]).value) == KindNamed(status)
  {
    match status
    case "pending" => Jobs.LoadByStatusMatches(db, table, Jobs.START, k);
    case "completed" => Jobs.LoadByStatusMatches(db, table, Jobs.DONE, k);
    case "running" => Jobs.LoadByStatusMatches(db, table, Jobs.RUNNING, k);
    case "broken" => BrokenOfKind(db, table, k);
    case _ =>
  }

  /** Every job `load_broken_jobs` returns has a status of the broken kind. */
  lemma BrokenOfKind(db: Database.Db, table: string, k: nat)
    requires Jobs.LoadBrokenJobs(db, table).result.Ok?
    requires k < |Jobs.LoadBrokenJobs(db, table).result.value|
    ensures Jobs.StatusOf(Jobs.LoadBrokenJobs(db, table).result.value[k]).Ok?
    ensures Jobs.KindOf(Jobs.StatusOf(Jobs.LoadBrokenJobs(db, table).result.value[k]).value) == Some(Jobs.Broken)
  {
    var jobs := Jobs.LoadBrokenJobs(db, table).result.value;
    assert Jobs.BrokenJob(jobs[k]);
  }

  /** The partial update `expand({STATUS: code, "proc_status": name})`:
      the status sits at `jobman.status`, and nothing else is touched. */
  function StatusUpdate(code: Value, newStatus: string): (u: Record)
    ensures u.Keys == {"jobman", "proc_status"}
    ensures PathLookup(u, ["jobman", "status"]) == Some(code)
    ensures PathLookup(u, ["proc_status"]) == Some(Str(newStatus))
    ensures u["jobman"].Dict? && u["jobman"].fields.Keys == {"status"}
  {
    map["jobman" := Dict(map["status" := code]), "proc_status" := Str(newStatus)]
  }

  /** `experiment["table"]` used as a table name: a list or a dictionary
      cannot key the handle cache, and a number, a boolean or `None` cannot
      be searched for '-', so each raises `TypeError`. */
  function TableName(experiment: Record): (r: Result<string>)
    ensures r.Ok? <==> "table" in experiment && experiment["table"].Str?
    ensures r.Ok? ==> experiment["table"] == Str(r.value)
  {
    var t :- Get(experiment, "table");
    match t
    case Str(name) => Ok(name)
    case _ => Err(TypeError)
  }

  /** The experiments named `name`. */
  function Named(db: Database.Db, name: string): Database.Step<seq<Record>> {
    Experiments.LoadExperiments(db, None, Some(Experiments.NameFilter(name)))
  }

  /** Whether `set_jobs` finds an experiment to act on. */
  predicate Found(db: Database.Db, name: string) {
    Named(db, name).result.Ok? && |Named(db, name).result.value| > 0
  }

  /** `set_jobs`: the first experiment of that name has the jobs of the
      given status updated to the target status. Without such an experiment
      nothing happens. A status name it does not know loads nothing, so the
      final call reads `experiment["table"]` (a `KeyError` without one) and
      then finds `jobs` unbound, before any store call could object to the
      table's type. */
  function SetJobs(db: Database.Db, name: string, status: string, newStatus: string, failing: set<int>): (s: Database.Step<()>)
    ensures s.result.Ok? && Found(db, name) ==> KindNamed(status).Some? && TargetStatus(newStatus).Ok?
    ensures KindNamed(status).None? || TargetStatus(newStatus).Err? ==> s.db.tables == db.tables
    ensures !Found(db, name) ==> s.db.tables == db.tables
    ensures Found(db, name) && KindNamed(status).None? ==>
              s.result == Err(if "table" in Named(db, name).result.value[0] then NameError else KeyError)
    ensures s.result.Ok? && Found(db, name) ==>
              TableName(Named(db, name).result.value[0]).Ok?
              && forall n | n != TableName(Named(db, name).result.value[0]).value ::
                   Database.TableOf(s.db, n) == Database.TableOf(db, n)
  {
    SetJobsOn(db, Named(db, name), status, newStatus, failing)
  }

  /** `set_jobs` once its lookup gave `named`. */
  function SetJobsOn(db: Database.Db, named: Database.Step<seq<Record>>, status: string, newStatus: string, failing: set<int>): (s: Database.Step<()>)
    requires named.db.tables == db.tables
    ensures s.result.Ok? && (named.result.Ok? && |named.result.value| > 0) ==> KindNamed(status).Some? && TargetStatus(newStatus).Ok?
    ensures KindNamed(status).None? || TargetStatus(newStatus).Err? ==> s.db.tables == db.tables
    ensures !(named.result.Ok? && |named.result.value| > 0) ==> s.db.tables == db.tables
    ensures (named.result.Ok? && |named.result.value| > 0) && KindNamed(status).None? ==>
              s.result == Err(if "table" in named.result.value[0] then NameError else KeyError)
    ensures s.result.Ok? && (named.result.Ok? && |named.result.value| > 0) ==>
              TableName(named.result.value[0]).Ok?
              && forall n | n != TableName(named.result.value[0]).value ::
                   Database.TableOf(s.db, n) == Database.TableOf(db, n)
  {
    match named.result
    case Err(e) => Database.Step(Err(e), named.db)
    case Ok(experiments) =>
      if |experiments| == 0 then Database.Step(Ok(()), named.db)
      else if KindNamed(status).None? then
        Database.Step(Err(if "table" in experiments[0] then NameError else KeyError), named.db)
      else
        match TableName(experiments[0])
        case Err(e) => Database.Step(Err(e), named.db)
        case Ok(table) =>
          var selected := SelectJobs(named.db, table, status);
          match selected.result
          case Err(e) => Database.Step(Err(e), selected.db)
          case Ok(jobs) =>
            match TargetStatus(newStatus)
            case Err(e) => Database.Step(Err(e), selected.db)
            case Ok(code) =>
              assert selected.db.tables == db.tables;
              Database.Update(selected.db, table, jobs, StatusUpdate(code, newStatus), failing)
  }

  /** What a successful `set_jobs` wrote: the selected jobs, and only they,
      were updated with the target status. */
  lemma SetJobsWrites(db: Database.Db, name: string, status: string, newStatus: string, failing: set<int>)
    requires SetJobs(db, name, status, newStatus, failing).result.Ok? && Found(db, name)
    ensures TableName(Named(db, name).result.value[0]).Ok?
    ensures var named := Named(db, name);
            var table := TableName(named.result.value[0]).value;
            var selected := SelectJobs(named.db, table, status);
            && selected.result.Ok?
            && Database.UpdateRows(Database.TableOf(selected.db, table), selected.result.value,
                                   StatusUpdate(TargetStatus(newStatus).value, newStatus), failing)
               == Ok(Database.TableOf(SetJobs(db, name, status, newStatus, failing).db, table))
  {
  }

  /** `reset_jobs`: `set_jobs` towards pending, which always names a known
      target. */
  function ResetJobs(db: Database.Db, name: string, status: string, failing: set<int>): (s: Database.Step<()>)
    ensures s.result.Ok? && Found(db, name) ==> KindNamed(status).Some?
    ensures KindNamed(status).None? || !Found(db, name) ==> s.db.tables == db.tables
    ensures Found(db, name) && KindNamed(status).None? ==>
              s.result == Err(if "table" in Named(db, name).result.value[0] then NameError else KeyError)
    ensures s.result.Ok? && Found(db, name) ==>
              TableName(Named(db, name).result.value[0]).Ok?
              && forall n | n != TableName(Named(db, name).result.value[0]).value ::
                   Database.TableOf(s.db, n) == Database.TableOf(db, n)
  {
    SetJobs(db, name, status, "pending", failing)
  }

  /** What a successful `reset_jobs` wrote: the selected jobs, and only
      they, were given the status `START` and the name "pending". */
  lemma ResetJobsWrites(db: Database.Db, name: string, status: string, failing: set<int>)
    requires ResetJobs(db, name, status, failing).result.Ok? && Found(db, name)
    ensures TableName(Named(db, name).result.value[0]).Ok?
    ensures var named := Named(db, name);
            var table := TableName(named.result.value[0]).value;
            var selected := SelectJobs(named.db, table, status);
            && selected.result.Ok?
            && Database.UpdateRows(Database.TableOf(selected.db, table), selected.result.value,
                                   StatusUpdate(Jobs.START, "pending"), failing)
               == Ok(Database.TableOf(ResetJobs(db, name, status, failing).db, table))
  {
    SetJobsWrites(db, name, status, "pending", failing);
    assert TargetStatus("pending") == Ok(Jobs.START);
  }

  // ---------------------------------------------------------------------
  // running a job

  /** `"%d" % state["id"]` in the message of `run`: a missing id or one
      that is not a number raises before the message is built. */
  function IdMessage(state: Record): (r: Result<()>)
    ensures r.Ok? <==> "id" in state && Numeric(state["id"]).Some?
  {
    var id :- Get(state, "id");
    if Numeric(id).Some? then Ok(()) else Err(TypeError)
  }

  /** The description `run` registers before looking the job up: the
      configuration with its status set to `START`. */
  function Registered(config: Record): (r: Record)
    ensures Jobs.StatusOf(r) == Ok(Jobs.START)
    ensures r.Keys == config.Keys + {"jobman"}
    ensures forall k | k in config && k != "jobman" :: r[k] == config[k]
  {
    config["jobman" := Dict(map["status" := Jobs.START])]
  }

  /** What `run` decides once it has looked up the jobs already registered
      with the same description: it takes over the first of them if there
      is one; a job that is not pending is refused unless forced; the job
      it goes on with is marked running. */
  function RunState(config: Record, found: seq<Record>, force: bool): (r: Result<Record>)
    ensures |found| == 0 ==> r.Ok? && r.value == Registered(config)["jobman" := Dict(map["status" := Jobs.RUNNING])]
    ensures r.Ok? ==> Jobs.StatusOf(r.value) == Ok(Jobs.RUNNING)
    ensures r.Ok? && |found| > 0 ==>
              r.value.Keys == found[0].Keys && forall k | k in found[0] && k != "jobman" :: r.value[k] == found[0][k]
    ensures |found| > 0 && Jobs.IsPending(found[0]) == Ok(false) && !force ==> r.Err?
    ensures |found| > 0 && (Jobs.IsPending(found[0]) == Ok(true) || (Jobs.StatusOf(found[0]).Ok? && force && IdMessage(found[0]).Ok?))
            ==> r.Ok?
  {
    var state := if |found| > 0 then found[0] else Registered(config);
    var status :- Jobs.StatusOf(state);
    var _ :- if PyEq(status, Jobs.START) then Ok(())
             else if force then IdMessage(state)
             else match IdMessage(state)
                  case Err(e) => Err(e)
                  case Ok(_) => Err(RuntimeError);
    var jobman := Dict(state["jobman"].fields["status" := Jobs.RUNNING]);
    var running := state["jobman" := jobman];
    assert |found| == 0 ==> jobman == Dict(map["status" := Jobs.RUNNING]);
    assert Get(running, "jobman") == Ok(jobman);
    assert Jobs.StatusOf(running) == Ok(Jobs.RUNNING);
    Ok(running)
  }

  /** A refused job is reported with `RuntimeError` when its id can be
      printed. */
  lemma RunRefused(config: Record, found: seq<Record>)
    requires |found| > 0 && Jobs.IsPending(found[0]) == Ok(false) && IdMessage(found[0]).Ok?
    ensures RunState(config, found, false) == Err(RuntimeError)
  {
  }

  /** Taking over a job keeps everything under `jobman` but the status. */
  lemma RunKeepsJobman(config: Record, found: seq<Record>, force: bool)
    requires |found| > 0 && RunState(config, found, force).Ok?
    ensures var jobman := found[0]["jobman"].fields;
            RunState(config, found, force).value["jobman"] == Dict(jobman["status" := Jobs.RUNNING])
  {
  }
}
