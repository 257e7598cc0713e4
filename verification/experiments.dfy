/** The experiment helpers of `distributed_jobman/schedulers/experiments.py`.

    An experiment is a record with a `clusters` entry mapping each cluster
    name to that cluster's settings. Saving checks the settings and fills the
    three per-job resources the cluster leaves out with the placeholder
    `"null"`; loading replaces every placeholder by the experiment's own
    value for the same key. */
module Experiments {
  import opened Wrappers
  import opened Values
  import Text
  import Seqs
  import Database

  /** The settings every cluster must give. */
  const RequiredOptions: set<string> := {"root", "max_running", "max_queued"}

  /** The resources a cluster may leave to the experiment. */
  const DefaultedOptions: set<string> := {"duree", "mem", "env"}

  /** The placeholder for a resource taken from the experiment. */
  const NULL: Value := Str("null")

  const Defaults: Record := map["duree" := NULL, "mem" := NULL, "env" := NULL]

  /** The store table experiments live in. */
  const ExperimentsTable: string := "experiments"

  // ---------------------------------------------------------------------
  // validation when saving

  /** Some required setting is missing from the cluster: `key not in
      cluster` holds for one of them. */
  predicate LacksRequired(cluster: Value) {
    exists key | key in RequiredOptions :: In(key, cluster) == Ok(false)
  }

  /** Some resource is given by neither the cluster nor the experiment. */
  predicate LacksResource(cluster: Value, experiment: Record) {
    exists key | key in DefaultedOptions :: key !in experiment && In(key, cluster) == Ok(false)
  }

  predicate SavesCleanly(cluster: Value, experiment: Record) {
    !LacksRequired(cluster) && !LacksResource(cluster, experiment)
  }

  /** Why `dict.update` refuses one element of a sequence it is given, if
      it does: the element must itself be a sequence of two items (a
      dictionary counts by its keys) whose first item is hashable. */
  function PairError(v: Value): Option<PyError> {
    match v
    case Str(s) => if |s| == 2 then None else Some(ValueError)
    case List(xs) => if |xs| != 2 then Some(ValueError) else if xs[0].List? || xs[0].Dict? then Some(TypeError) else None
    case Dict(fields) => if |fields| == 2 then None else Some(ValueError)
    case _ => Some(TypeError)
  }

  /** The error of the first element `dict.update` refuses. */
  function FirstNotPair(items: seq<Value>): (r: Option<PyError>)
    ensures r.Some? <==> exists k :: 0 <= k < |items| && PairError(items[k]).Some?
    ensures r.Some? ==> exists k :: 0 <= k < |items| && PairError(items[k]) == r
                                    && forall j :: 0 <= j < k ==> PairError(items[j]).None?
    decreases |items|
  {
    if |items| == 0 then None
    else if PairError(items[0]).Some? then PairError(items[0])
    else
      var rest := FirstNotPair(items[1..]);
      assert forall k :: 0 < k < |items| ==> items[k] == items[1..][k - 1];
      if rest.Some? then
        var k :| 0 <= k < |items[1..]| && PairError(items[1..][k]) == rest
                 && forall j :: 0 <= j < k ==> PairError(items[1..][j]).None?;
        assert PairError(items[k + 1]) == rest;
        rest
      else rest
  }

  /** The loop body of `_validate_clusters_for_saving` for one cluster's
      settings, of whatever type. `in` on a number, a boolean or `None`
      raises `TypeError`; a missing setting raises `ValueError`; a string or
      a list that names every setting then fails in `dict.update`, which
      wants pairs. A dictionary comes out as the `"null"` defaults
      overridden by its own settings. */
  function CheckCluster(cluster: Value, experiment: Record): (r: Result<Record>)
    ensures !(cluster.Dict? || cluster.Str? || cluster.List?) ==> r == Err(TypeError)
    ensures r.Ok? <==> cluster.Dict? && SavesCleanly(cluster, experiment)
    ensures r.Err? ==> r.error == TypeError || r.error == ValueError
    ensures (cluster.Dict? || cluster.Str?) && r.Err? ==> r.error == ValueError
    ensures cluster.List? && SavesCleanly(cluster, experiment) ==>
              r.Err? && exists k :: 0 <= k < |cluster.items| && PairError(cluster.items[k]) == Some(r.error)
    ensures r.Ok? ==> r.value.Keys == cluster.fields.Keys + DefaultedOptions
                      && (forall key | key in cluster.fields :: r.value[key] == cluster.fields[key])
                      && (forall key | key in DefaultedOptions && key !in cluster.fields :: r.value[key] == NULL)
  {
    match cluster
    case Dict(fields) => if SavesCleanly(cluster, experiment) then Ok(Defaults + fields) else Err(ValueError)
    case Str(_) => Err(ValueError)
    case List(items) =>
      if !SavesCleanly(cluster, experiment) then Err(ValueError)
      else
        assert "root" in RequiredOptions && In("root", cluster) == Ok(true);
        var k :| 0 <= k < |items| && items[k] == Str("root");
        assert PairError(items[k]).Some?;
        Err(FirstNotPair(items).value)
    case _ => Err(TypeError)
  }

  /** `_validate_clusters_for_saving`. Clusters that are not a dictionary
      have no `iteritems` and raise `AttributeError`; otherwise every
      cluster is checked and completed. */
  function ValidateForSaving(clusters: Value, experiment: Record): (r: Result<map<string, Record>>)
    ensures !clusters.Dict? ==> r == Err(AttributeError)
    ensures clusters.Dict? ==>
              (r.Ok? <==> forall name | name in clusters.fields :: CheckCluster(clusters.fields[name], experiment).Ok?)
    ensures clusters.Dict? && r.Err? ==>
              exists name | name in clusters.fields :: CheckCluster(clusters.fields[name], experiment) == Err(r.error)
    ensures r.Ok? ==> clusters.Dict? && r.value.Keys == clusters.fields.Keys
    ensures r.Ok? ==> forall name | name in clusters.fields :: CheckCluster(clusters.fields[name], experiment) == Ok(r.value[name])
  {
    match clusters
    case Dict(fields) =>
      if exists name | name in fields :: CheckCluster(fields[name], experiment) == Err(TypeError) then Err(TypeError)
      else if exists name | name in fields :: CheckCluster(fields[name], experiment).Err? then Err(ValueError)
      else Ok(Completed(fields, experiment))
    case _ => Err(AttributeError)
  }

  /** Every cluster's completed settings, when every cluster saves. */
  function Completed(fields: map<string, Value>, experiment: Record): (r: map<string, Record>)
    requires forall name | name in fields :: CheckCluster(fields[name], experiment).Ok?
    ensures r.Keys == fields.Keys
    ensures forall name | name in fields :: CheckCluster(fields[name], experiment) == Ok(r[name])
  {
    map name | name in fields :: CheckCluster(fields[name], experiment).value
  }

  // ---------------------------------------------------------------------
  // validation when loading

  /** One cluster's settings with every placeholder replaced by the
      experiment's value for that key; a placeholder the experiment has no
      value for raises `KeyError`. */
  function Inherit(cluster: Record, experiment: Record): (r: Result<Record>)
    ensures r.Ok? <==> forall key | key in cluster && cluster[key] == NULL :: key in experiment
    ensures r.Err? ==> r.error == KeyError
    ensures r.Ok? ==> r.value.Keys == cluster.Keys
    ensures r.Ok? ==> forall key | key in cluster && cluster[key] != NULL :: r.value[key] == cluster[key]
    ensures r.Ok? ==> forall key | key in cluster && cluster[key] == NULL :: r.value[key] == experiment[key]
  {
    if exists key | key in cluster && cluster[key] == NULL :: key !in experiment then Err(KeyError)
    else Ok(map key | key in cluster :: if cluster[key] == NULL then experiment[key] else cluster[key])
  }

  /** Every cluster's settings are a dictionary. */
  predicate AllDicts(clusters: map<string, Value>) {
    forall name | name in clusters :: clusters[name].Dict?
  }

  /** `_validate_clusters_for_loading`. Clusters that are not dictionaries
      have no `iteritems`/`copy` and raise `AttributeError`. */
  function ValidateForLoading(clusters: Value, experiment: Record): (r: Result<map<string, Record>>)
    ensures !(clusters.Dict? && AllDicts(clusters.fields)) ==> r == Err(AttributeError)
    ensures clusters.Dict? && AllDicts(clusters.fields) ==>
              (r.Ok? <==> forall name | name in clusters.fields :: Inherit(clusters.fields[name].fields, experiment).Ok?)
    ensures r.Ok? ==> clusters.Dict? && r.value.Keys == clusters.fields.Keys
    ensures r.Ok? ==> forall name | name in clusters.fields ::
              clusters.fields[name].Dict? && Inherit(clusters.fields[name].fields, experiment) == Ok(r.value[name])
  {
    if !clusters.Dict? || !AllDicts(clusters.fields) then Err(AttributeError)
    else if exists name | name in clusters.fields :: Inherit(clusters.fields[name].fields, experiment).Err? then
      Err(KeyError)
    else Ok(map name | name in clusters.fields :: Inherit(clusters.fields[name].fields, experiment).value)
  }

  /** Clusters as stored: a dictionary of dictionaries. */
  function ClustersValue(clusters: map<string, Record>): (v: Value)
    ensures v.Dict? && v.fields.Keys == clusters.Keys && AllDicts(v.fields)
    ensures forall name | name in clusters :: v.fields[name] == Dict(clusters[name])
  {
    Dict(map name | name in clusters :: Dict(clusters[name]))
  }

  /** Saving and then loading a cluster: every setting the cluster gave is
      kept (placeholders aside), and every resource it left out is the
      experiment's own. */
  lemma SaveThenLoad(clusters: Value, experiment: Record)
    requires ValidateForSaving(clusters, experiment).Ok?
    requires forall name, key | name in clusters.fields && clusters.fields[name].Dict? && key in clusters.fields[name].fields ::
               clusters.fields[name].fields[key] == NULL ==> key in experiment
    ensures var given := clusters.fields;
            var loaded := ValidateForLoading(ClustersValue(ValidateForSaving(clusters, experiment).value), experiment);
            loaded.Ok? && loaded.value.Keys == given.Keys
            && forall name | name in given ::
                 given[name].Dict?
                 && loaded.value[name].Keys == given[name].fields.Keys + DefaultedOptions
                 && (forall key | key in given[name].fields && given[name].fields[key] != NULL ::
                       loaded.value[name][key] == given[name].fields[key])
                 && (forall key | key in DefaultedOptions && key !in given[name].fields ::
                       loaded.value[name][key] == experiment[key])
  {
    var given := clusters.fields;
    var saved := ValidateForSaving(clusters, experiment).value;
    forall name | name in given
      ensures Inherit(saved[name], experiment).Ok?
    {
      assert CheckCluster(given[name], experiment).Ok?;
      forall key | key in saved[name] && saved[name][key] == NULL
        ensures key in experiment
      {
        if key !in given[name].fields {
          assert key in DefaultedOptions;
          assert !LacksResource(given[name], experiment);
        }
      }
    }
  }

  // ---------------------------------------------------------------------
  // loading

  /** `cluster in exp["clusters"]`. */
  function ListsCluster(exp: Record, cluster: string): (r: Result<bool>)
    ensures "clusters" !in exp ==> r == Err(KeyError)
    ensures "clusters" in exp && exp["clusters"].Dict? ==> r == Ok(cluster in exp["clusters"].fields)
  {
    var clusters :- Get(exp, "clusters");
    In(cluster, clusters)
  }

  function ClusterTest(cluster: string): Record -> bool {
    (exp: Record) => ListsCluster(exp, cluster) == Ok(true)
  }

  /** `_filter_cluster`: every experiment when no cluster is named, else the
      experiments that list it, in order; the first experiment whose
      clusters cannot be searched raises. */
  function FilterCluster(cluster: Option<string>, exps: seq<Record>): (r: Result<seq<Record>>)
    ensures cluster.None? ==> r == Ok(exps)
    ensures cluster.Some? ==> (r.Ok? <==> forall k :: 0 <= k < |exps| ==> ListsCluster(exps[k], cluster.value).Ok?)
    ensures cluster.Some? && r.Ok? ==> r.value == Seqs.Filter(exps, ClusterTest(cluster.value))
    decreases |exps|
  {
    match cluster
    case None => Ok(exps)
    case Some(c) =>
      if |exps| == 0 then Ok([])
      else
        var keep :- ListsCluster(exps[0], c);
        match FilterCluster(cluster, exps[1..])
        case Err(e) =>
          assert exists k :: 0 < k < |exps| && ListsCluster(exps[k], c).Err? by {
            var k :| 0 <= k < |exps[1..]| && ListsCluster(exps[1..][k], c).Err?;
            assert exps[1..][k] == exps[k + 1];
          }
          Err(e)
        case Ok(rest) =>
          assert forall k :: 0 < k < |exps| ==> exps[k] == exps[1..][k - 1];
          Ok((if keep then [exps[0]] else []) + rest)
  }

  /** One loaded experiment with its clusters validated for loading. */
  function WithLoadedClusters(exp: Record): (r: Result<Record>)
    ensures r.Ok? ==> "clusters" in exp && r.value.Keys == exp.Keys
    ensures r.Ok? ==> forall key | key in exp && key != "clusters" :: r.value[key] == exp[key]
    ensures r.Ok? ==> exists valid :: ValidateForLoading(exp["clusters"], exp) == Ok(valid)
                                      && r.value["clusters"] == ClustersValue(valid)
  {
    var clusters :- Get(exp, "clusters");
    var valid :- ValidateForLoading(clusters, exp);
    Ok(exp["clusters" := ClustersValue(valid)])
  }

  /** The loop of `load_experiments`. */
  function LoadedClusters(exps: seq<Record>): (r: Result<seq<Record>>)
    ensures r.Ok? <==> forall k :: 0 <= k < |exps| ==> WithLoadedClusters(exps[k]).Ok?
    ensures r.Ok? ==> |r.value| == |exps|
    ensures r.Ok? ==> forall k :: 0 <= k < |exps| ==> WithLoadedClusters(exps[k]) == Ok(r.value[k])
    decreases |exps|
  {
    if |exps| == 0 then Ok([])
    else
      var first :- WithLoadedClusters(exps[0]);
      match LoadedClusters(exps[1..])
      case Err(e) =>
        assert exists k :: 0 < k < |exps| && WithLoadedClusters(exps[k]).Err? by {
          var k :| 0 <= k < |exps[1..]| && WithLoadedClusters(exps[1..][k]).Err?;
          assert exps[1..][k] == exps[k + 1];
        }
        Err(e)
      case Ok(rest) =>
        assert forall k :: 0 < k < |exps| ==> exps[k] == exps[1..][k - 1];
        Ok([first] + rest)
  }

  /** `load_experiments`: load, keep those on the cluster, then validate
      every experiment's clusters for loading. */
  function LoadExperiments(db: Database.Db, cluster: Option<string>, filter: Option<Record>): (s: Database.Step<seq<Record>>)
    ensures s.db.tables == db.tables
    ensures s.result.Ok? ==> exists all, kept :: Database.Load(db, ExperimentsTable, filter, VNone).result == Ok(all)
                                                 && FilterCluster(cluster, all) == Ok(kept)
                                                 && LoadedClusters(kept) == s.result
  {
    var loaded := Database.Load(db, ExperimentsTable, filter, VNone);
    var result := match loaded.result
      case Err(e) => Err(e)
      case Ok(all) =>
        match FilterCluster(cluster, all)
        case Err(e) => Err(e)
        case Ok(kept) => LoadedClusters(kept);
    Database.Step(result, loaded.db)
  }

  // ---------------------------------------------------------------------
  // saving

  /** The filter `dict(name=name)`. */
  function NameFilter(name: string): Record {
    map["name" := Str(name)]
  }

  /** The record a new experiment starts from. */
  function NewExperiment(name: string, table: string, duree: Value, mem: Value, env: Value, gpu: Value): (r: Record)
    ensures r.Keys == {"name", "table", "gpu"} + DefaultedOptions
    ensures r["name"] == Str(name) && r["table"] == Str(table)
    ensures r["duree"] == duree && r["mem"] == mem && r["env"] == env && r["gpu"] == gpu
  {
    map["name" := Str(name), "table" := Str(table), "duree" := duree, "mem" := mem, "env" := env, "gpu" := gpu]
  }

  /** The local variables of `save_experiment` at the point it builds its
      update, by name. */
  function Locals(name: string, table: string, clusters: Value, duree: Value, mem: Value, env: Value,
                  gpu: Value, existing: seq<Record>, experiment: Record): (r: Record)
    ensures "table" !in r && "table_name" in r && r["table_name"] == Str(table)
    ensures "clusters" in r && r["clusters"] == clusters
    ensures "experiment" in r && r["experiment"] == Dict(experiment)
  {
    map["name" := Str(name), "table_name" := Str(table), "clusters" := clusters,
        "duree" := duree, "mem" := mem, "env" := env, "gpu" := gpu,
        "already_existing" := List(seq(|existing|, k requires 0 <= k < |existing| => Dict(existing[k]))),
        "experiment" := Dict(experiment)]
  }

  /** The update of an existing experiment: the locals named like one of its
      keys, with the clusters validated against it. */
  function ExperimentUpdate(locals: Record, experiment: Record, valid: map<string, Record>): (u: Record)
    ensures u.Keys == (locals.Keys * experiment.Keys) + {"clusters"}
    ensures forall key | key in u && key != "clusters" :: u[key] == locals[key]
    ensures u["clusters"] == ClustersValue(valid)
  {
    (map key | key in locals && key in experiment :: locals[key])["clusters" := ClustersValue(valid)]
  }

  /** The update branch of `save_experiment`: validate the clusters against
      the first experiment found, update that row, return it as loaded. The
      table is passed as `table_name`, which no experiment has a key for, so
      the stored table name is never changed. */
  function UpdateExisting(db: Database.Db, existing: seq<Record>, name: string, table: string,
                          clusters: Value, duree: Value, mem: Value, env: Value, gpu: Value,
                          failing: set<int>): (s: Database.Step<Record>)
    requires |existing| > 0
    ensures s.result.Ok? ==> s.result.value == existing[0] && ValidateForSaving(clusters, existing[0]).Ok?
    ensures s.result.Ok? ==>
              var upd := ExperimentUpdate(Locals(name, table, clusters, duree, mem, env, gpu, existing, existing[0]),
                                          existing[0], ValidateForSaving(clusters, existing[0]).value);
              "table" !in upd
              && Database.UpdateRows(Database.TableOf(db, ExperimentsTable), [existing[0]], upd, failing)
                 == Ok(Database.TableOf(s.db, ExperimentsTable))
    ensures s.result.Err? ==> s.db.tables == db.tables
    ensures forall n | n != ExperimentsTable :: Database.TableOf(s.db, n) == Database.TableOf(db, n)
  {
    var experiment := existing[0];
    match ValidateForSaving(clusters, experiment)
    case Err(e) => Database.Step(Err(e), db)
    case Ok(valid) =>
      var locals := Locals(name, table, clusters, duree, mem, env, gpu, existing, experiment);
      var updated := Database.Update(db, ExperimentsTable, [experiment], ExperimentUpdate(locals, experiment, valid), failing);
      Database.Step(if updated.result.Ok? then Ok(experiment) else Err(updated.result.error), updated.db)
  }

  /** The insert branch of `save_experiment`: the new record with its
      validated clusters, saved and returned as the store saved it. */
  function InsertNew(db: Database.Db, name: string, table: string, clusters: Value,
                     duree: Value, mem: Value, env: Value, gpu: Value): (s: Database.Step<Record>)
    ensures s.result.Ok? ==>
              var experiment := NewExperiment(name, table, duree, mem, env, gpu);
              ValidateForSaving(clusters, experiment).Ok?
              && |Database.TableOf(s.db, ExperimentsTable).rows| == |Database.TableOf(db, ExperimentsTable).rows| + 1
              && Database.SaveRow(Database.TableOf(db, ExperimentsTable),
                                  experiment["clusters" := ClustersValue(ValidateForSaving(clusters, experiment).value)])
                 == Ok(Database.Saved(Database.TableOf(s.db, ExperimentsTable), s.result.value))
    ensures s.result.Err? ==> s.db.tables == db.tables
    ensures forall n | n != ExperimentsTable :: Database.TableOf(s.db, n) == Database.TableOf(db, n)
  {
    var experiment := NewExperiment(name, table, duree, mem, env, gpu);
    match ValidateForSaving(clusters, experiment)
    case Err(e) => Database.Step(Err(e), db)
    case Ok(valid) =>
      assert "id" !in experiment["clusters" := ClustersValue(valid)];
      Database.Save(db, ExperimentsTable, experiment["clusters" := ClustersValue(valid)])
  }

  /** `save_experiment`: the first experiment of that name is updated,
      otherwise a new one is inserted. `failing` are the rows whose update
      fails in the driver. */
  function SaveExperiment(db: Database.Db, name: string, table: string, clusters: Value,
                          duree: Value, mem: Value, env: Value, gpu: Value, failing: set<int>): (s: Database.Step<Record>)
    ensures s.result.Err? ==> s.db.tables == db.tables
    ensures s.result.Ok? ==> LoadExperiments(db, None, Some(NameFilter(name))).result.Ok?
    ensures s.result.Ok? ==> forall n | n != ExperimentsTable :: Database.TableOf(s.db, n) == Database.TableOf(db, n)
    ensures var found := LoadExperiments(db, None, Some(NameFilter(name)));
            s.result.Ok? && |found.result.value| > 0 ==>
              var experiment := found.result.value[0];
              s.result.value == experiment
              && ValidateForSaving(clusters, experiment).Ok?
              && Database.UpdateRows(Database.TableOf(db, ExperimentsTable), [experiment],
                                     ExperimentUpdate(Locals(name, table, clusters, duree, mem, env, gpu, found.result.value, experiment),
                                                      experiment, ValidateForSaving(clusters, experiment).value),
                                     failing)
                 == Ok(Database.TableOf(s.db, ExperimentsTable))
    ensures var found := LoadExperiments(db, None, Some(NameFilter(name)));
            s.result.Ok? && |found.result.value| == 0 ==>
              var experiment := NewExperiment(name, table, duree, mem, env, gpu);
              ValidateForSaving(clusters, experiment).Ok?
              && |Database.TableOf(s.db, ExperimentsTable).rows| == |Database.TableOf(db, ExperimentsTable).rows| + 1
              && Database.SaveRow(Database.TableOf(db, ExperimentsTable),
                                  experiment["clusters" := ClustersValue(ValidateForSaving(clusters, experiment).value)])
                 == Ok(Database.Saved(Database.TableOf(s.db, ExperimentsTable), s.result.value))
  {
    SaveFound(db, LoadExperiments(db, None, Some(NameFilter(name))), name, table, clusters, duree, mem, env, gpu, failing)
  }

  /** `save_experiment` after its lookup found `found`. */
  function SaveFound(db: Database.Db, found: Database.Step<seq<Record>>, name: string, table: string, clusters: Value,
                     duree: Value, mem: Value, env: Value, gpu: Value, failing: set<int>): (s: Database.Step<Record>)
    requires found.db.tables == db.tables
    ensures s.result.Err? ==> s.db.tables == db.tables
    ensures s.result.Ok? ==> found.result.Ok?
    ensures s.result.Ok? ==> forall n | n != ExperimentsTable :: Database.TableOf(s.db, n) == Database.TableOf(db, n)
    ensures s.result.Ok? && |found.result.value| > 0 ==>
              var experiment := found.result.value[0];
              s.result.value == experiment
              && ValidateForSaving(clusters, experiment).Ok?
              && Database.UpdateRows(Database.TableOf(db, ExperimentsTable), [experiment],
                                     ExperimentUpdate(Locals(name, table, clusters, duree, mem, env, gpu, found.result.value, experiment),
                                                      experiment, ValidateForSaving(clusters, experiment).value),
                                     failing)
                 == Ok(Database.TableOf(s.db, ExperimentsTable))
    ensures s.result.Ok? && |found.result.value| == 0 ==>
              var experiment := NewExperiment(name, table, duree, mem, env, gpu);
              ValidateForSaving(clusters, experiment).Ok?
              && |Database.TableOf(s.db, ExperimentsTable).rows| == |Database.TableOf(db, ExperimentsTable).rows| + 1
              && Database.SaveRow(Database.TableOf(db, ExperimentsTable),
                                  experiment["clusters" := ClustersValue(ValidateForSaving(clusters, experiment).value)])
                 == Ok(Database.Saved(Database.TableOf(s.db, ExperimentsTable), s.result.value))
  {
    match found.result
    case Err(e) => Database.Step(Err(e), found.db)
    case Ok(existing) =>
      assert Database.TableOf(found.db, ExperimentsTable) == Database.TableOf(db, ExperimentsTable);
      if |existing| > 0 then UpdateExisting(found.db, existing, name, table, clusters, duree, mem, env, gpu, failing)
      else InsertNew(found.db, name, table, clusters, duree, mem, env, gpu)
  }

  /** A new experiment carries all three resources itself, so saving it
      fails only for clusters that are not a dictionary of dictionaries or
      for a cluster lacking a required setting. */
  lemma NewExperimentValidation(clusters: Value, name: string, table: string,
                                duree: Value, mem: Value, env: Value, gpu: Value)
    ensures ValidateForSaving(clusters, NewExperiment(name, table, duree, mem, env, gpu)).Err?
            <==> !clusters.Dict? || exists c | c in clusters.fields :: !clusters.fields[c].Dict? || LacksRequired(clusters.fields[c])
  {
    var experiment := NewExperiment(name, table, duree, mem, env, gpu);
    if clusters.Dict? {
      forall c | c in clusters.fields
        ensures !LacksResource(clusters.fields[c], experiment)
      {
        assert DefaultedOptions <= experiment.Keys;
      }
    }
  }
}
