/** The job helpers of `distributed_jobman/schedulers/jobs.py`: the status
    predicates, the status-based selections over the store, and the command
    lines handed to the cluster's dispatcher. */
module Jobs {
  import opened Wrappers
  import opened Values
  import Text
  import Seqs
  import Database

  // ---------------------------------------------------------------------
  // job statuses

  /** The status codes of jobman's `sql` module. Only their being six
      distinct integers matters to the model. */
  const START: Value := Int(0)
  const RUNNING: Value := Int(1)
  const DONE: Value := Int(2)
  const ERR_START: Value := Int(3)
  const ERR_SYNC: Value := Int(4)
  const ERR_RUN: Value := Int(5)

  /** The six statuses a job can be in. */
  const Statuses: seq<Value> := [START, RUNNING, DONE, ERR_RUN, ERR_SYNC, ERR_START]

  /** The four kinds of job the scheduler tells apart. */
  datatype Kind = Pending | Running | Completed | Broken

  /** What a status means, read off the integer it stands for. A value that
      is no known status has no kind. */
  function KindOf(status: Value): Option<Kind> {
    match Numeric(status)
    case Some(0) => Some(Pending)
    case Some(1) => Some(Running)
    case Some(2) => Some(Completed)
    case Some(3) => Some(Broken)
    case Some(4) => Some(Broken)
    case Some(5) => Some(Broken)
    case _ => None
  }

  /** `job["jobman"]["status"]`. */
  function StatusOf(job: Record): (r: Result<Value>)
    ensures r.Ok? <==> PathLookup(job, ["jobman", "status"]).Some?
    ensures r.Ok? ==> PathLookup(job, ["jobman", "status"]) == Some(r.value)
  {
    assert ["jobman", "status"][1..] == ["status"];
    match Get(job, "jobman")
    case Err(e) => Err(e)
    case Ok(j) => Field(j, "status")
  }

  /** `is_pending`: the status equals `START`. */
  function IsPending(job: Record): (r: Result<bool>)
    ensures r.Ok? <==> StatusOf(job).Ok?
    ensures r.Ok? ==> (r.value <==> KindOf(StatusOf(job).value) == Some(Pending))
  {
    var s :- StatusOf(job);
    Ok(PyEq(s, START))
  }

  /** `is_running`: the status equals `RUNNING`. */
  function IsRunning(job: Record): (r: Result<bool>)
    ensures r.Ok? <==> StatusOf(job).Ok?
    ensures r.Ok? ==> (r.value <==> KindOf(StatusOf(job).value) == Some(Running))
  {
    var s :- StatusOf(job);
    Ok(PyEq(s, RUNNING))
  }

  /** `is_completed`: the status equals `DONE`. */
  function IsCompleted(job: Record): (r: Result<bool>)
    ensures r.Ok? <==> StatusOf(job).Ok?
    ensures r.Ok? ==> (r.value <==> KindOf(StatusOf(job).value) == Some(Completed))
  {
    var s :- StatusOf(job);
    Ok(PyEq(s, DONE))
  }

  /** `is_broken`: the status is in the list of the three error statuses. */
  function IsBroken(job: Record): (r: Result<bool>)
    ensures r.Ok? <==> StatusOf(job).Ok?
    ensures r.Ok? ==> (r.value <==> KindOf(StatusOf(job).value) == Some(Broken))
  {
    var s :- StatusOf(job);
    Ok(PyEq(s, ERR_RUN) || PyEq(s, ERR_SYNC) || PyEq(s, ERR_START))
  }

  /** How many of the four predicates hold of a job. */
  function Holding(job: Record): nat {
    (if IsPending(job) == Ok(true) then 1 else 0)
    + (if IsRunning(job) == Ok(true) then 1 else 0)
    + (if IsCompleted(job) == Ok(true) then 1 else 0)
    + (if IsBroken(job) == Ok(true) then 1 else 0)
  }

  /** No job satisfies two of the predicates. */
  lemma PredicatesExclusive(job: Record)
    ensures Holding(job) <= 1
  {
  }

  /** A job in any of the six statuses satisfies exactly one predicate. */
  lemma StatusesPartitioned(job: Record, k: nat)
    requires k < |Statuses| && StatusOf(job) == Ok(Statuses[k])
    ensures Holding(job) == 1
  {
  }

  /** `is_broken` holds exactly of the jobs whose status is one of the three
      error statuses; a boolean status is never one of them. */
  lemma BrokenIff(job: Record)
    ensures IsBroken(job) == Ok(true)
            <==> StatusOf(job).Ok? && StatusOf(job).value in {ERR_RUN, ERR_SYNC, ERR_START}
  {
  }

  // ---------------------------------------------------------------------
  // selections

  predicate BrokenJob(job: Record) {
    IsBroken(job) == Ok(true)
  }

  /** `[job for job in jobs if is_broken(job)]`: the first job without a
      status raises, otherwise the broken jobs in their order. */
  function BrokenOnly(jobs: seq<Record>): (r: Result<seq<Record>>)
    ensures r.Ok? <==> forall k :: 0 <= k < |jobs| ==> StatusOf(jobs[k]).Ok?
    ensures r.Ok? ==> r.value == Seqs.Filter(jobs, BrokenJob)
    decreases |jobs|
  {
    if |jobs| == 0 then Ok([])
    else
      var keep :- IsBroken(jobs[0]);
      match BrokenOnly(jobs[1..])
      case Err(e) =>
        assert exists k :: 0 < k < |jobs| && StatusOf(jobs[k]).Err? by {
          var k :| 0 <= k < |jobs[1..]| && StatusOf(jobs[1..][k]).Err?;
          assert jobs[1..][k] == jobs[k + 1];
        }
        Err(e)
      case Ok(rest) =>
        assert forall k :: 0 < k < |jobs| ==> jobs[k] == jobs[1..][k - 1];
        Ok((if keep then [jobs[0]] else []) + rest)
  }

  /** `load_broken_jobs`: every job of the table, then the broken ones. */
  function LoadBrokenJobs(db: Database.Db, table: string): (s: Database.Step<seq<Record>>)
    ensures s.db.tables == db.tables
    ensures s.result.Ok? ==> exists all :: Database.Load(db, table, None, VNone).result == Ok(all)
                                           && s.result.value == Seqs.Filter(all, BrokenJob)
  {
    var loaded := Database.Load(db, table, None, VNone);
    match loaded.result
    case Err(e) => Database.Step(Err(e), loaded.db)
    case Ok(all) => Database.Step(BrokenOnly(all), loaded.db)
  }

  /** The store filter `{"jobman.status": status}`. */
  function StatusFilter(status: Value): Record {
    map["jobman.status" := status]
  }

  /** `load_pending_jobs`, `load_running_jobs` and `load_completed_jobs`:
      the jobs whose stored status equals the given one. */
  function LoadByStatus(db: Database.Db, table: string, status: Value): (s: Database.Step<seq<Record>>)
    ensures s.db.tables == db.tables
  {
    Database.Load(db, table, Some(StatusFilter(status)), VNone)
  }

  lemma StatusPath()
    ensures Text.Split("jobman.status", ".") == ["jobman", "status"]
  {
    var parts := ["jobman", "status"];
    assert parts[1..] == ["status"];
    assert Text.Join(".", parts) == "jobman.status";
    Text.SplitJoin(parts, '.');
  }

  /** A row the status filter lets through carries that status once loaded. */
  lemma EagerKeepsStatus(row: Database.StoredRow, status: Value)
    requires Database.Matches(row.attrs, StatusFilter(status))
    requires Database.Eager(row).Ok?
    ensures StatusOf(Database.Eager(row).value) == Ok(status)
  {
    StatusPath();
    var rec := Database.Eager(row).value;
    assert "jobman.status" in StatusFilter(status);
    assert Dotted(row.attrs, "jobman.status") == Some(status);
    assert PathLookup(row.attrs, ["jobman", "status"]) == Some(status);
    assert "jobman" in rec - {"id"} && "jobman" in row.attrs - {"id"};
    assert rec["jobman"] == (rec - {"id"})["jobman"] == (row.attrs - {"id"})["jobman"] == row.attrs["jobman"];
    assert ["jobman", "status"][1..] == ["status"];
  }

  /** The store query and the Python predicate agree: every job loaded by
      status has that status, so for instance `load_pending_jobs` returns only
      jobs satisfying `is_pending`. */
  lemma {:induction false} LoadByStatusMatches(db: Database.Db, table: string, status: Value, k: nat)
    requires LoadByStatus(db, table, status).result.Ok?
    requires k < |LoadByStatus(db, table, status).result.value|
    ensures StatusOf(LoadByStatus(db, table, status).result.value[k]) == Ok(status)
  {
    var f := StatusFilter(status);
    var jobs := LoadByStatus(db, table, status).result.value;
    var rows :| Database.LoadRows(Database.TableOf(db, table), Some(f), VNone) == Ok(rows)
                && Database.EagerAll(rows) == Ok(jobs);
    assert rows == Seqs.Filter(Database.TableOf(db, table).rows, Database.MatchTest(f));
    assert Database.MatchTest(f)(rows[k]);
    EagerKeepsStatus(rows[k], status);
  }

  // ---------------------------------------------------------------------
  // command lines

  /** The arguments of the jobman command: `-n <count>` or nothing. */
  function JobmanArguments(count: Option<int>): string {
    match count
    case None => ""
    case Some(n) => "-n " + Text.IntToString(n)
  }

  /** `_build_jobman_command_string`. */
  function JobmanCommand(dbString: string, root: string, count: Option<int>): (r: string)
    ensures |r| >= 11 + |dbString| + 1 + |root| && r[..11] == "jobman sql "
    ensures r[|r| - |root|..] == root && r[|r| - |root| - 1 - |dbString|..|r| - |root|] == dbString + " "
  {
    "jobman sql " + JobmanArguments(count) + " " + dbString + " " + root
  }

  /** The words the arguments split into: `-n` and the count, or one empty
      word between two adjacent blanks. */
  function CountWords(count: Option<int>): seq<string> {
    match count
    case None => [""]
    case Some(n) => ["-n", Text.IntToString(n)]
  }

  lemma IntToStringUnblank(i: int)
    ensures ' ' !in Text.IntToString(i)
  {
    var d := Text.NatToString(if i < 0 then -i else i);
    assert Text.AllDigits(d);
  }

  /** `Join(sep, [w] + ws)` puts `w` and a separator in front. */
  lemma JoinCons(sep: string, w: string, ws: seq<string>)
    requires |ws| > 0
    ensures Text.Join(sep, [w] + ws) == w + sep + Text.Join(sep, ws)
  {
    assert ([w] + ws)[1..] == ws;
  }

  /** Joining two non-empty word lists is joining each and separating the
      two halves. */
  lemma {:induction false} JoinAppend(sep: string, a: seq<string>, b: seq<string>)
    requires |a| > 0 && |b| > 0
    ensures Text.Join(sep, a + b) == Text.Join(sep, a) + sep + Text.Join(sep, b)
    decreases |a|
  {
    var x := a[0];
    if |a| == 1 {
      JoinCons(sep, x, b);
      assert a + b == [x] + b;
    } else {
      var ja := Text.Join(sep, a[1..]);
      var jb := Text.Join(sep, b);
      JoinAppend(sep, a[1..], b);
      assert a + b == [x] + (a[1..] + b);
      JoinCons(sep, x, a[1..] + b);
      JoinCons(sep, x, a[1..]);
      assert a == [x] + a[1..];
      Regroup3(x, sep, ja, jb);
    }
  }

  lemma Regroup3(x: string, sep: string, ja: string, jb: string)
    ensures x + sep + (ja + sep + jb) == x + sep + ja + sep + jb
  {
  }

  function JobmanWordList(dbString: string, root: string, count: Option<int>): seq<string> {
    ["jobman", "sql"] + CountWords(count) + [dbString, root]
  }

  lemma Join2(sep: string, a: string, b: string)
    ensures Text.Join(sep, [a, b]) == a + sep + b
  {
    JoinCons(sep, a, [b]);
  }

  lemma Join3(sep: string, a: string, b: string, c: string)
    ensures Text.Join(sep, [a, b, c]) == a + sep + b + sep + c
  {
    Join2(sep, b, c);
    JoinCons(sep, a, [b, c]);
    assert [a, b, c] == [a] + [b, c];
  }

  lemma Join4(sep: string, a: string, b: string, c: string, d: string)
    ensures Text.Join(sep, [a, b, c, d]) == a + sep + b + sep + c + sep + d
  {
    Join3(sep, b, c, d);
    JoinCons(sep, a, [b, c, d]);
    assert [a, b, c, d] == [a] + [b, c, d];
  }

  lemma JobmanHead(count: Option<int>)
    ensures Text.Join(" ", ["jobman", "sql"] + CountWords(count)) == "jobman sql " + JobmanArguments(count)
  {
    match count
    case None =>
      assert ["jobman", "sql"] + CountWords(count) == ["jobman", "sql", ""];
      Join3(" ", "jobman", "sql", "");
    case Some(n) =>
      var c := Text.IntToString(n);
      assert ["jobman", "sql"] + CountWords(count) == ["jobman", "sql", "-n", c];
      Join4(" ", "jobman", "sql", "-n", c);
      assert "jobman" + " " + "sql" + " " == "jobman sql ";
      assert "-n" + " " == "-n ";
  }

  lemma JobmanJoined(dbString: string, root: string, count: Option<int>)
    ensures Text.Join(" ", JobmanWordList(dbString, root, count)) == JobmanCommand(dbString, root, count)
  {
    var head := ["jobman", "sql"] + CountWords(count);
    var tail := [dbString, root];
    Join2(" ", dbString, root);
    JobmanHead(count);
    JoinAppend(" ", head, tail);
    var h := "jobman sql " + JobmanArguments(count);
    assert h + " " + (dbString + " " + root) == h + " " + dbString + " " + root;
  }

  /** The jobman command splits back, at its blanks, into the program, the
      sub-command, the count arguments, the connection string and the
      experiment's root, whenever the last two have no blanks of their own. */
  lemma JobmanWords(dbString: string, root: string, count: Option<int>)
    requires ' ' !in dbString && ' ' !in root
    ensures Text.Split(JobmanCommand(dbString, root, count), " ") == JobmanWordList(dbString, root, count)
  {
    var words := JobmanWordList(dbString, root, count);
    if count.Some? {
      IntToStringUnblank(count.value);
    }
    forall k | 0 <= k < |words|
      ensures ' ' !in words[k]
    {
    }
    JobmanJoined(dbString, root, count);
    Text.SplitJoin(words, ' ');
  }

  /** The jobman command carries `-n k` exactly when a count `k` is given, and
      an empty argument otherwise: the count can be read back from it. */
  lemma JobmanCount(dbString: string, root: string, count: Option<int>)
    requires ' ' !in dbString && ' ' !in root
    ensures var words := Text.Split(JobmanCommand(dbString, root, count), " ");
            match count
            case None => |words| == 5 && words[2] == ""
            case Some(n) => |words| == 6 && words[2] == "-n" && Text.ParseInt(words[3]) == Some(n)
  {
    JobmanWords(dbString, root, count);
    if count.Some? {
      CountWord(JobmanWordList(dbString, root, count), count.value);
    }
  }

  /** The word after `-n` reads back as the count. */
  lemma CountWord(words: seq<string>, n: int)
    requires |words| >= 4 && words[3] == Text.IntToString(n)
    ensures Text.ParseInt(words[3]) == Some(n)
  {
    Text.IntToStringRoundTrip(n);
  }

  /** One `--name=value` option of the dispatcher. */
  function Flag(name: string, value: string): string {
    "--" + name + "=" + value
  }

  /** The dispatcher's arguments: `--gpu` when asked for, the three
      cluster settings in order, then the number of copies to run. */
  function DispatchArguments(gpu: bool, duree: string, mem: string, env: string, n: int): string {
    (if gpu then "--gpu" else "")
    + " " + Flag("duree", duree) + " " + Flag("mem", mem) + " " + Flag("env", env)
    + " " + Flag("repeat_jobs", Text.IntToString(n))
  }

  /** `experiment["clusters"][cluster][key]`. */
  function ClusterSetting(experiment: Record, cluster: string, key: string): (r: Result<Value>)
    ensures r.Ok? <==> PathLookup(experiment, ["clusters", cluster, key]).Some?
    ensures r.Ok? ==> PathLookup(experiment, ["clusters", cluster, key]) == Some(r.value)
  {
    var path := ["clusters", cluster, key];
    assert path[1..] == [cluster, key] && path[1..][1..] == [key];
    match Get(experiment, "clusters")
    case Err(e) => Err(e)
    case Ok(clusters) =>
      match Field(clusters, cluster)
      case Err(e) => Err(e)
      case Ok(settings) =>
        assert PathLookup(experiment, path) == PathLookup(clusters.fields, [cluster, key]);
        assert !settings.Dict? || PathLookup(clusters.fields, [cluster, key]) == PathLookup(settings.fields, [key]);
        Field(settings, key)
  }

  /** `experiment.get("gpu", False)`, as a condition. */
  predicate WantsGpu(experiment: Record) {
    "gpu" in experiment && Truthy(experiment["gpu"])
  }

  /** `get_db_string(experiment["table"])`: the table, of whatever type,
      is searched for '-' and then written into the connection string. */
  function ExperimentDbString(creds: Database.Credentials, experiment: Record): (r: Result<string>)
    ensures "table" !in experiment ==> r == Err(KeyError)
    ensures "table" in experiment ==>
              (r.Ok? <==> In("-", experiment["table"]) == Ok(false))
              && (r.Ok? ==> r.value == Database.DbPrefix(creds) + "=" + Render(experiment["table"]))
    ensures "table" in experiment && experiment["table"].Str? ==> r == Database.DbString(creds, experiment["table"].s)
  {
    var table :- Get(experiment, "table");
    Database.DbStringOf(creds, table)
  }

  /** `_build_jobdispatch_command_string`. */
  function DispatchCommand(creds: Database.Credentials, cluster: string, experiment: Record, n: int): (r: Result<string>)
    ensures r.Ok? ==> ExperimentDbString(creds, experiment).Ok?
    ensures r.Ok? ==> forall key | key in ["root", "duree", "mem", "env"] :: ClusterSetting(experiment, cluster, key).Ok?
  {
    var db :- ExperimentDbString(creds, experiment);
    var root :- ClusterSetting(experiment, cluster, "root");
    var jobman := JobmanCommand(db, Render(root), None);
    var duree :- ClusterSetting(experiment, cluster, "duree");
    var mem :- ClusterSetting(experiment, cluster, "mem");
    var env :- ClusterSetting(experiment, cluster, "env");
    var arguments := DispatchArguments(WantsGpu(experiment), Render(duree), Render(mem), Render(env), n);
    Ok("jobdispatch " + arguments + " " + jobman)
  }

  /** The words of a dispatch command before the jobman command. */
  function DispatchWordList(gpu: bool, duree: string, mem: string, env: string, n: int): seq<string> {
    ["jobdispatch", if gpu then "--gpu" else "",
     Flag("duree", duree), Flag("mem", mem), Flag("env", env), Flag("repeat_jobs", Text.IntToString(n))]
  }

  lemma DispatchJoined(gpu: bool, duree: string, mem: string, env: string, n: int)
    ensures Text.Join(" ", DispatchWordList(gpu, duree, mem, env, n))
            == "jobdispatch " + DispatchArguments(gpu, duree, mem, env, n)
  {
    var g := if gpu then "--gpu" else "";
    var a, b, c, d := Flag("duree", duree), Flag("mem", mem), Flag("env", env), Flag("repeat_jobs", Text.IntToString(n));
    Join4(" ", a, b, c, d);
    JoinCons(" ", g, [a, b, c, d]);
    assert [g, a, b, c, d] == [g] + [a, b, c, d];
    JoinCons(" ", "jobdispatch", [g, a, b, c, d]);
    assert DispatchWordList(gpu, duree, mem, env, n) == ["jobdispatch"] + [g, a, b, c, d];
    var t := a + " " + b + " " + c + " " + d;
    assert DispatchArguments(gpu, duree, mem, env, n) == g + " " + t by {
      Regroup(g, a, b, c, d, " ");
    }
    assert "jobdispatch" + " " + (g + " " + t) == "jobdispatch " + (g + " " + t);
  }

  lemma Regroup(g: string, a: string, b: string, c: string, d: string, sp: string)
    ensures g + sp + a + sp + b + sp + c + sp + d == g + sp + (a + sp + b + sp + c + sp + d)
  {
  }

  /** The settings a dispatch command is assembled from print without
      blanks, so that the dispatcher can split the command back into them. */
  predicate Unblank(experiment: Record, cluster: string, key: string) {
    ClusterSetting(experiment, cluster, key).Ok? && ' ' !in Render(ClusterSetting(experiment, cluster, key).value)
  }

  /** The words of an assembled dispatch command, when none of its parts
      has a blank of its own. */
  lemma DispatchSplit(gpu: bool, duree: string, mem: string, env: string, n: int, db: string, root: string)
    requires ' ' !in duree && ' ' !in mem && ' ' !in env && ' ' !in db && ' ' !in root
    ensures Text.Split("jobdispatch " + DispatchArguments(gpu, duree, mem, env, n) + " " + JobmanCommand(db, root, None), " ")
            == DispatchWordList(gpu, duree, mem, env, n) + JobmanWordList(db, root, None)
  {
    var front := DispatchWordList(gpu, duree, mem, env, n);
    var back := JobmanWordList(db, root, None);
    DispatchJoined(gpu, duree, mem, env, n);
    JobmanJoined(db, root, None);
    JoinAppend(" ", front, back);
    WordsUnblank(gpu, duree, mem, env, n, db, root);
    Text.SplitJoin(front + back, ' ');
  }

  lemma WordsUnblank(gpu: bool, duree: string, mem: string, env: string, n: int, db: string, root: string)
    requires ' ' !in duree && ' ' !in mem && ' ' !in env && ' ' !in db && ' ' !in root
    ensures var words := DispatchWordList(gpu, duree, mem, env, n) + JobmanWordList(db, root, None);
            forall k :: 0 <= k < |words| ==> ' ' !in words[k]
  {
    IntToStringUnblank(n);
    var c := Text.IntToString(n);
    assert ' ' !in Flag("duree", duree) && ' ' !in Flag("mem", mem) && ' ' !in Flag("env", env);
    assert ' ' !in Flag("repeat_jobs", c);
  }

  /** A dispatch command splits, at its blanks, into `jobdispatch`, `--gpu`
      exactly when the experiment asks for a GPU (an empty word otherwise),
      `--duree`, `--mem` and `--env` from the cluster's settings in that
      order, `--repeat_jobs=n`, and then the words of a jobman command on
      the experiment's table and root with no count. */
  lemma DispatchWords(creds: Database.Credentials, cluster: string, experiment: Record, n: int)
    requires DispatchCommand(creds, cluster, experiment, n).Ok?
    requires ' ' !in ExperimentDbString(creds, experiment).value
    requires Unblank(experiment, cluster, "root") && Unblank(experiment, cluster, "duree")
    requires Unblank(experiment, cluster, "mem") && Unblank(experiment, cluster, "env")
    ensures Text.Split(DispatchCommand(creds, cluster, experiment, n).value, " ")
            == DispatchWordList(WantsGpu(experiment),
                                Render(ClusterSetting(experiment, cluster, "duree").value),
                                Render(ClusterSetting(experiment, cluster, "mem").value),
                                Render(ClusterSetting(experiment, cluster, "env").value), n)
               + JobmanWordList(ExperimentDbString(creds, experiment).value,
                                Render(ClusterSetting(experiment, cluster, "root").value), None)
  {
    DispatchSplit(WantsGpu(experiment),
                  Render(ClusterSetting(experiment, cluster, "duree").value),
                  Render(ClusterSetting(experiment, cluster, "mem").value),
                  Render(ClusterSetting(experiment, cluster, "env").value), n,
                  ExperimentDbString(creds, experiment).value,
                  Render(ClusterSetting(experiment, cluster, "root").value));
  }

  /** Read back from the words: the second is `--gpu` exactly when the
      experiment's `gpu` is truthy, and the sixth gives back the number of
      copies. */
  lemma DispatchFlags(creds: Database.Credentials, cluster: string, experiment: Record, n: int)
    requires DispatchCommand(creds, cluster, experiment, n).Ok?
    requires ' ' !in ExperimentDbString(creds, experiment).value
    requires Unblank(experiment, cluster, "root") && Unblank(experiment, cluster, "duree")
    requires Unblank(experiment, cluster, "mem") && Unblank(experiment, cluster, "env")
    ensures var words := Text.Split(DispatchCommand(creds, cluster, experiment, n).value, " ");
            |words| == 11
            && (words[1] == "--gpu" <==> "gpu" in experiment && Truthy(experiment["gpu"]))
            && words[5] == Flag("repeat_jobs", Text.IntToString(n))
  {
    DispatchWords(creds, cluster, experiment, n);
    WordListShape(WantsGpu(experiment),
                  Render(ClusterSetting(experiment, cluster, "duree").value),
                  Render(ClusterSetting(experiment, cluster, "mem").value),
                  Render(ClusterSetting(experiment, cluster, "env").value), n,
                  ExperimentDbString(creds, experiment).value,
                  Render(ClusterSetting(experiment, cluster, "root").value));
  }

  lemma WordListShape(gpu: bool, duree: string, mem: string, env: string, n: int, db: string, root: string)
    ensures var words := DispatchWordList(gpu, duree, mem, env, n) + JobmanWordList(db, root, None);
            |words| == 11 && (words[1] == "--gpu" <==> gpu) && words[5] == Flag("repeat_jobs", Text.IntToString(n))
  {
  }
}
