# distributed_jobman in Dafny

A model of the decision and parsing core of `distributed_jobman`. It is a
command-line job manager that keeps experiments and their jobs in a jobman
SQL store. It decides how many jobs each experiment may submit to a
cluster's queue, and it reads the queue back from the output of the
`qstat` and `showq` tools.

Every operation is a pure function over immutable values. A Python
exception is an `Err` carrying the kind of the exception (`ValueError`,
`KeyError`, `IndexError`, `TypeError`, `AttributeError`, `RuntimeError`,
and `NameError` for a local read before it is bound). The store, the
handle cache and the memo cache are state records that each operation
takes and returns.

Modules, one per source component:

- `Wrappers`: `Option`, `Result` and the exception kinds.
- `Text`: Python's `strip`, `split`, `join`, `int()` and `str()` on strings.
- `Seqs`: order-keeping filter, string order, and a stable sort by key.
- `Values`: the values a jobman record holds (numbers, booleans, strings,
  `None`, lists, nested dicts). It also holds Python 2 equality, truthiness
  and `str()` of a scalar, plus the deep merge that a partial update of a
  flattened record amounts to. A list or a dict is rendered as the
  placeholder `[...]` or `{...}`.
- `Database` (`database.py`): the store facade.
  - Each table is a sequence of rows with store-assigned ids.
  - Handles are cached per table.
  - A session that raises commits nothing.
  - Driver calls that raise inside a `try` are given as a set of failing row ids.
- `Jobs` (`schedulers/jobs.py`): the status predicates, the status-based
  loads, and the `jobman` and `jobdispatch` command strings.
- `Experiments` (`schedulers/experiments.py`): cluster validation when
  saving and `"null"` inheritance when loading, the cluster filter, and
  `save_experiment`.
- `Observer` (`observer.py`): the job counts and array-request expansion.
- `Qstat` and `Showq` (`parsers/`): the two listing parsers.
- `Utils` (`utils.py`): `bold`, and the structural hash `hash_dicts`.
- `Memo` (`utils.py`): the `Cache` decorator.
  - It holds a heap of result tables addressed by reference, because the
    class-level `_caches` and each instance's `self.cache` refer to the
    same dicts.
  - A wrapper reads its instance's `self.cache` at every call. When an
    instance decorates a second function, its earlier wrappers use the
    new function's table.
  - The clock is a parameter.
- `Commands` (`main.py`): the admission quota of `monitor`/`launch`,
  `_format_ids`, the `list_jobs` buckets, `set_jobs`/`reset_jobs`, and the
  decision `run` takes after its lookup.

The inputs that the code gets from outside are parameters:

- the clock;
- the experiments a pass visits, in the order `random.shuffle` left them;
- the counts the observer reports for each pass;
- the jobs `run`'s lookup found;
- the text `qstat` and `showq` print;
- whether standard output is a terminal.

The status constants of jobman's `sql` module are the integers 0 to 5:
`START`, `RUNNING`, `DONE`, `ERR_START`, `ERR_SYNC` and `ERR_RUN`. Only
the fact that they are distinct matters to the proofs.

## Model

| member | source | states |
|---|---|---|
| Database.DbString | distributed_jobman/database.py:51-60 | a table name is refused with ValueError exactly when it contains '-'; otherwise the connection string is the filled-in template, ending with `?table=` and the table name |
| Database.DbStringNamesTable | distributed_jobman/database.py:55-60 | for a name without '-' or '=', the text after the last '=' of the connection string is the table name |
| Database.DbStringInjective | distributed_jobman/database.py:51-60 | different valid table names get different connection strings |
| Database.DbStringOf | distributed_jobman/database.py:51-60 | for a table value of any type: a dict, string or list is searched for "-" (ValueError when found), any other value raises TypeError at the `in`; otherwise the connection string is the template filled with the table written out, and for a string table it is `get_db_string` of that name |
| Values.In | distributed_jobman/schedulers/experiments.py:49 | Python 2 `in`: a dict tests its keys, a list tests its elements for equality, a string searches for the substring, and any other value raises TypeError |
| Database.OpenDb | distributed_jobman/database.py:40-49 | a cached table returns its cached handle and changes nothing; an uncached one opens one new handle on its connection string and caches it, and fails only on a refused name |
| Database.OpenDbOnce | distributed_jobman/database.py:40-49 | opening a table a second time returns the same handle and opens nothing more |
| Database.OpenDbDistinct | distributed_jobman/database.py:40-49 | two different tables never share a handle |
| Database.RowFor | distributed_jobman/database.py:171-175 | looking up an integer id returns the stored row with that id, or ValueError when no row has it |
| Database.UpdateRows | distributed_jobman/database.py:62-74 | a committed update keeps the number of rows, their ids and their order, and the next id |
| Database.UpdateRowsEffect | distributed_jobman/database.py:62-74 | when every requested id is stored, exactly the requested rows whose update does not fail receive the partial update; all other rows stay as they were |
| Database.UpdateRowsAborts | distributed_jobman/database.py:67-69 | a row without an id, or with an id the table lacks, aborts the whole batch before commit, because the lookup is outside the `try` |
| Database.DeleteRows | distributed_jobman/database.py:81-88 | the delete loop never changes the next id to assign |
| Database.DeleteRowsEffect | distributed_jobman/database.py:81-88 | deleting removes exactly the requested ids minus the failing ones; unknown ids are skipped, the rest keep their order, and the batch commits |
| Database.DeleteRowsAborts | distributed_jobman/database.py:81-87 | a row with no `id` key aborts the batch, because the handler reads `row['id']` again |
| Database.WithoutWellFormed | distributed_jobman/database.py:85 | deleting keeps row ids unique and below the next id |
| Database.SaveInserts | distributed_jobman/database.py:104-129 | a row without an id is appended under the next id and returned with that id as both `id` and `jobman.id`; the other attributes are returned as given |
| Database.SaveUpdates | distributed_jobman/database.py:95-103 | a row with a stored id updates that row alone, with `id` removed from the update; the returned record has the same id and every value the update set |
| Database.SaveRow | distributed_jobman/database.py:90-129 | a save returns a record with an integer `id`; an insert adds one row and advances the next id, an update keeps both; an update succeeds only for a numeric id |
| Database.SaveNonNumericId | distributed_jobman/database.py:95-101 | saving with a `None` id raises IndexError on an empty table and TypeError otherwise (from the `%d` of the log message); any other non-numeric id raises TypeError |
| Database.SaveMissing | distributed_jobman/database.py:99-100 | saving under an id the table lacks raises ValueError |
| Database.LoadRows | distributed_jobman/database.py:165-182 | a query by id returns exactly that row or ValueError; a query without id or filter never fails |
| Database.Eager | distributed_jobman/database.py:151-153 | a loaded record gets `id` set to its `jobman.id` and otherwise keeps the stored attributes; a row without `jobman.id` fails |
| Database.EagerAll | distributed_jobman/database.py:148-153 | loading a batch succeeds exactly when every row loads, giving one record per row in order |
| Database.Load | distributed_jobman/database.py:139-163 | a load changes no table and returns the loaded form of what the query selected |
| Database.LoadMissing | distributed_jobman/database.py:171-174 | loading by an id the table lacks raises ValueError |
| Database.LoadFiltered | distributed_jobman/database.py:176-177 | loading with a filter returns, in store order, exactly the rows whose dotted keys equal the filter's values |
| Database.Update | distributed_jobman/database.py:62-74 | an update touches only its own table and commits nothing when it raises |
| Database.Delete | distributed_jobman/database.py:76-88 | a delete touches only its own table and commits nothing when it raises |
| Database.Save | distributed_jobman/database.py:90-129 | a save touches only its own table and commits nothing when it raises |
| Jobs.IsPending | distributed_jobman/schedulers/jobs.py:64-65 | true exactly for a job whose status is START; raises when the job has no status |
| Jobs.IsRunning | distributed_jobman/schedulers/jobs.py:68-69 | true exactly for a job whose status is RUNNING; raises when the job has no status |
| Jobs.IsCompleted | distributed_jobman/schedulers/jobs.py:72-73 | true exactly for a job whose status is DONE; raises when the job has no status |
| Jobs.IsBroken | distributed_jobman/schedulers/jobs.py:76-77 | true exactly for a job whose status is one of the error statuses; raises when the job has no status |
| Jobs.PredicatesExclusive | distributed_jobman/schedulers/jobs.py:64-77 | no job satisfies two of the four status predicates |
| Jobs.StatusesPartitioned | distributed_jobman/schedulers/jobs.py:64-77 | a job in any of the six statuses satisfies exactly one predicate |
| Jobs.BrokenIff | distributed_jobman/schedulers/jobs.py:76-77 | `is_broken` holds exactly when the status is ERR_RUN, ERR_SYNC or ERR_START |
| Jobs.BrokenOnly | distributed_jobman/schedulers/jobs.py:105 | the selection is exactly the broken jobs, in their order, and fails when a job has no status |
| Jobs.LoadBrokenJobs | distributed_jobman/schedulers/jobs.py:101-105 | returns exactly the loaded jobs that are broken, in load order, and writes nothing |
| Jobs.LoadByStatus | distributed_jobman/schedulers/jobs.py:80-98 | loading the jobs of one status writes to no table |
| Jobs.LoadByStatusMatches | distributed_jobman/schedulers/jobs.py:80-98 | every job loaded for a status has that status |
| Jobs.JobmanCommand | distributed_jobman/schedulers/jobs.py:14-20 | the command starts with `jobman sql ` and ends with the connection string, a blank and the root |
| Jobs.JobmanWords | distributed_jobman/schedulers/jobs.py:14-20 | the jobman command is the words `jobman sql`, the count argument, the connection string and the root |
| Jobs.JobmanCount | distributed_jobman/schedulers/jobs.py:14-20 | the command carries `-n k` exactly when a count k is given, and k can be read back from it; without a count the argument is empty |
| Jobs.CountWord | distributed_jobman/schedulers/jobs.py:16-17 | the count word written by `-n %d` reads back as the count |
| Jobs.ClusterSetting | distributed_jobman/schedulers/jobs.py:35 | a cluster setting is the value at `clusters.<cluster>.<key>` and fails when it is absent |
| Jobs.ExperimentDbString | distributed_jobman/schedulers/jobs.py:24 | KeyError without a table; otherwise the connection string succeeds exactly when the table, of whatever type, passes the "-" test, and it is the template filled with the table as written |
| Jobs.DispatchCommand | distributed_jobman/schedulers/jobs.py:23-43 | building the command needs the table's connection string and the cluster's root, duree, mem and env |
| Jobs.DispatchWords | distributed_jobman/schedulers/jobs.py:23-43 | the dispatch command is `jobdispatch`, the GPU flag, `--duree`, `--mem` and `--env` from the cluster in that order, `--repeat_jobs=n`, then the jobman command without a count |
| Jobs.DispatchFlags | distributed_jobman/schedulers/jobs.py:29-37 | the command has eleven words; the second is `--gpu` exactly when the experiment's `gpu` is truthy (`Jobs.WantsGpu`: `get("gpu", False)`, so a missing key means no GPU), and the sixth is `--repeat_jobs=n` |
| Experiments.ValidateForSaving | distributed_jobman/schedulers/experiments.py:8-27 | a clusters value that is not a dict raises AttributeError; otherwise saving succeeds exactly when every cluster passes `CheckCluster`, a failure carries the error of some failing cluster, and a success keeps the cluster names with each cluster completed as `CheckCluster` completes it |
| Experiments.CheckCluster | distributed_jobman/schedulers/experiments.py:10-25 | one cluster of any type: a scalar raises TypeError at the first `in`; a dict succeeds exactly when it names root, max_running and max_queued and every resource the experiment lacks, and is then the `"null"` defaults overridden by its own settings; a string or dict that lacks a setting raises ValueError; a list that names every setting reaches `dict.update` and raises the error of one of its elements |
| Experiments.FirstNotPair | distributed_jobman/schedulers/experiments.py:25 | `dict.update` of a sequence fails exactly when some element is not a pair with a hashable first item, and then with the error of the first such element |
| Experiments.Inherit | distributed_jobman/schedulers/experiments.py:34-40 | every `"null"` setting takes the experiment's value for that key, and every other setting is kept; KeyError when the experiment lacks the key |
| Experiments.ValidateForLoading | distributed_jobman/schedulers/experiments.py:30-42 | a clusters value that is not a dict of dicts raises; otherwise each cluster inherits its `"null"` settings and the names are kept |
| Experiments.SaveThenLoad | distributed_jobman/schedulers/experiments.py:8-42 | when saving succeeds and every `"null"` the clusters hold names a key the experiment has, loading what was saved succeeds with the same cluster names, each cluster keeping its own non-`"null"` settings and taking the experiment's value for each defaulted resource it did not give |
| Experiments.ListsCluster | distributed_jobman/schedulers/experiments.py:49 | tests whether the cluster is among the experiment's clusters; KeyError without clusters |
| Experiments.FilterCluster | distributed_jobman/schedulers/experiments.py:45-49 | no cluster keeps every experiment; a cluster keeps, in order, exactly the experiments listing it |
| Experiments.LoadedClusters | distributed_jobman/schedulers/experiments.py:57-61 | each experiment keeps its other keys and gets its clusters validated for loading; fails exactly when one validation fails |
| Experiments.WithLoadedClusters | distributed_jobman/schedulers/experiments.py:58-61 | one experiment keeps its keys and its other values, and its clusters become their loading validation; it fails without clusters or when the validation fails |
| Experiments.LoadExperiments | distributed_jobman/schedulers/experiments.py:52-63 | loads the experiments matching the filter, keeps those on the cluster, validates their clusters, and writes nothing |
| Experiments.ExperimentUpdate | distributed_jobman/schedulers/experiments.py:72-76 | the update holds the call's arguments that the experiment already has as keys, plus the validated clusters |
| Experiments.Locals | distributed_jobman/schedulers/experiments.py:66-73 | the locals `save_experiment` sees hold `table_name` (not `table`), the clusters as given, and the found `experiment`, so only the arguments whose names are experiment keys reach the update |
| Experiments.UpdateExisting | distributed_jobman/schedulers/experiments.py:70-77 | the first existing experiment receives the update and is returned; a failure writes nothing |
| Experiments.InsertNew | distributed_jobman/schedulers/experiments.py:78-90 | a new record with name, table, duree, mem, env, gpu and the validated clusters is saved and returned as stored; a failure writes nothing |
| Experiments.NewExperiment | distributed_jobman/schedulers/experiments.py:79-85 | a new experiment has exactly the keys name, table, duree, mem, env and gpu, holding the call's arguments |
| Experiments.NewExperimentValidation | distributed_jobman/schedulers/experiments.py:79-88 | a new experiment carries all three resources, so saving its clusters fails exactly when they are not a dict, or some cluster is not a dict or lacks a required setting |
| Experiments.SaveExperiment | distributed_jobman/schedulers/experiments.py:66-93 | a save that raises writes nothing; one that succeeds touches only the experiments table. When an experiment of that name is found, the first one is returned and its row receives the update of the locals named like its keys plus the validated clusters; otherwise the table gains exactly one row, the new experiment with its validated clusters, and the record saved is returned |
| Observer.CountAsWritten | distributed_jobman/observer.py:5-18 | every count function raises, because the loaders it calls do not exist |
| Observer.CountByStatus | distributed_jobman/observer.py:5-14 | the count is the number of jobs loaded with the given status |
| Observer.CountBroken | distributed_jobman/observer.py:17-18 | the count is the number of broken jobs loaded |
| Observer.CountedPendingArePending | distributed_jobman/observer.py:5-6 | every job counted as pending satisfies `is_pending` |
| Observer.BrokenAtMostAll | distributed_jobman/observer.py:17-18 | there are never more broken jobs than jobs in the table |
| Observer.CountArrayRequest | distributed_jobman/observer.py:21-30 | a job without `array_request` counts 1; otherwise the value read from `job_array_request` must exist (KeyError), be a string, and split into exactly two parts at '-' (ValueError) |
| Observer.RangeSize | distributed_jobman/observer.py:26-30 | a request succeeds exactly when it splits at '-' into two parts that both parse as integers, and then covers hi - lo + 1 indices; every failure is ValueError |
| Observer.RangeCounted | distributed_jobman/observer.py:30 | the request `lo-hi` counts hi - lo + 1 jobs |
| Text.ParseSignBlanks | distributed_jobman/observer.py:30 | Python 2 `int()` of a sign, blanks and digits is the signed value of the digits: blanks after the sign are skipped |
| Observer.CountSubmitted | distributed_jobman/observer.py:33-35 | an empty listing counts 0; a failing sum carries the error of one of the jobs' counts |
| Observer.AddCounts | distributed_jobman/observer.py:35 | adding two counts succeeds exactly when both do, giving their sum; a failure carries the first error |
| Observer.CountSubmittedOk | distributed_jobman/observer.py:33-35 | the sum succeeds exactly when every job's count does |
| Observer.CountSubmittedAppend | distributed_jobman/observer.py:33-35 | the count of two listings together is the sum of their counts, or the first error among the first listing's jobs and then the second's |
| Observer.CountSubmittedPlain | distributed_jobman/observer.py:33-35 | a listing without array requests counts one per job |
| Qstat.ParseQstat | distributed_jobman/parsers/qstat.py:53-88 | one job per non-blank block of the full listing, each with an `id` and a `job_array_running` |
| Qstat.ParseBlock | distributed_jobman/parsers/qstat.py:61-86 | a parsed block has a string id with leading digits, and its `job_array_running` is the row count of that numeric id |
| Qstat.RowCounts | distributed_jobman/parsers/qstat.py:55-58 | every id counted has a positive count |
| Qstat.RowCountsCount | distributed_jobman/parsers/qstat.py:55-58 | each id counts exactly the non-blank rows that start with a digit and whose leading integer is that id |
| Qstat.HeaderIdAfterColon | distributed_jobman/parsers/qstat.py:65 | a block's id is the stripped text after the last ':' of its first line |
| Qstat.ReadLine | distributed_jobman/parsers/qstat.py:69-81 | an empty line raises IndexError; a tab line raises ValueError when no key precedes it and otherwise appends to the last key's value; any other line sets a key |
| Qstat.ReadAssignment | distributed_jobman/parsers/qstat.py:76-79 | a `k = v` line sets the stripped k to the stripped v, even when v itself holds " = " |
| Qstat.ReadLinesKeeps | distributed_jobman/parsers/qstat.py:69-81 | a field that no line sets and no continuation extends keeps its value |
| Qstat.ReadLines | distributed_jobman/parsers/qstat.py:69-81 | reading a block's lines never drops a key already set |
| Qstat.JobRecord | distributed_jobman/parsers/qstat.py:83-84 | the job gets `job_array_running`, the row count of its leading numeric id or 0; ValueError when the id has no leading digits |
| Qstat.BlockId | distributed_jobman/parsers/qstat.py:65-79 | unless a line sets `id` itself, a job's id is the one in its block's header |
| Qstat.ParseBlocks | distributed_jobman/parsers/qstat.py:60-88 | one job per non-blank block, each with an id and a running count |
| Qstat.ParseBlocksJob | distributed_jobman/parsers/qstat.py:61-86 | the k-th job is what the k-th non-blank block parses to |
| Qstat.ParseBlocksFail | distributed_jobman/parsers/qstat.py:61-86 | one failing non-blank block fails the whole listing |
| Qstat.ParseBlocksSucceed | distributed_jobman/parsers/qstat.py:61-86 | the listing parses when every non-blank block does |
| Qstat.ArrayRunning | distributed_jobman/parsers/qstat.py:53-84 | each job's `job_array_running` equals the number of rows of the row listing that start with its numeric id |
| Qstat.Qstat | distributed_jobman/parsers/qstat.py:42-47 | without an id (or with `None`), the parsed listing is returned whole; with one, the result is the parsed jobs filtered by that id, in order |
| Qstat.SelectJobs | distributed_jobman/parsers/qstat.py:44-47 | with an id, the selection is exactly the jobs whose id equals it in Python's sense; without one, all jobs |
| Showq.ArrayIndexOf | distributed_jobman/parsers/showq.py:39-41 | the array index of a row is the digits inside its first `[...]` |
| Showq.ArrayIndex | distributed_jobman/parsers/showq.py:39-43 | a bracketed index is a run of digits, and a row without '[' has none |
| Showq.LeadingDigitsOf | distributed_jobman/parsers/showq.py:38 | a row's id is its leading run of digits |
| Showq.RowEntry | distributed_jobman/parsers/showq.py:38-43 | a row records its leading id and its bracketed index, or 0 without brackets; a row not starting with a digit raises ValueError |
| Showq.AddTwice | distributed_jobman/parsers/showq.py:45 | adding the same (id, index) pair twice changes nothing |
| Showq.AddPairs | distributed_jobman/parsers/showq.py:45 | adding a pair adds exactly that pair |
| Showq.Add | distributed_jobman/parsers/showq.py:45 | recording a pair adds its id, puts the index in that id's set, and loses no index already recorded |
| Showq.FetchIds | distributed_jobman/parsers/showq.py:36-45 | fetching succeeds exactly when every row has a leading id, and keeps every id already recorded |
| Showq.FetchIdsPairs | distributed_jobman/parsers/showq.py:36-45 | fetching adds exactly the rows' (id, index) pairs |
| Showq.SectionEnd | distributed_jobman/parsers/showq.py:62-63 | the section ends at the first blank row; running off the listing raises IndexError |
| Showq.Scan | distributed_jobman/parsers/showq.py:51-69 | the scan keeps every id recorded before it |
| Showq.ScanNonEmpty | distributed_jobman/parsers/showq.py:56-69 | every id recorded has at least one index |
| Showq.ParseShowq | distributed_jobman/parsers/showq.py:51-71 | every id in the result maps to a non-empty set of indices |
| Showq.Sections | distributed_jobman/parsers/showq.py:58-67 | listing the sections fails only with IndexError, for a section with no closing blank row |
| Showq.ScanSections | distributed_jobman/parsers/showq.py:51-69 | the scan succeeds exactly when the sections can be listed and every row of them has a leading id, and it adds exactly the entries of all those rows |
| Showq.ParseShowqSections | distributed_jobman/parsers/showq.py:51-71 | `parse_showq` succeeds exactly when every section ends in a blank row and its rows have leading ids, and it records exactly their (id, index) pairs |
| Showq.ScanPlain | distributed_jobman/parsers/showq.py:68-69 | rows that are not section headers are passed over |
| Showq.BlankNotHeader | distributed_jobman/parsers/showq.py:48-62 | a blank row is never one of the three section headers |
| Showq.ClassifyConsistent | distributed_jobman/parsers/showq.py:59-62 | the two tests the scan makes of a row never both hold |
| Showq.NoSections | distributed_jobman/parsers/showq.py:56-71 | a listing without section headers records nothing |
| Showq.OneSection | distributed_jobman/parsers/showq.py:58-67 | one section records exactly the rows from three after its header up to the first blank row |
| Showq.LastSection | distributed_jobman/parsers/showq.py:58-67 | from the last header, the scan records what fetching that section records |
| Showq.ScanSection | distributed_jobman/parsers/showq.py:59-67 | at a header, the scan fetches the section and resumes at its closing blank row |
| Showq.SectionEndAt | distributed_jobman/parsers/showq.py:62-63 | the section end is the first blank row at or after the start |
| Showq.Unterminated | distributed_jobman/parsers/showq.py:62-63 | a section without a closing blank row raises IndexError |
| Utils.Bold | distributed_jobman/utils.py:15-19 | on a terminal the text sits between the bold-on and reset codes; otherwise it is unchanged |
| Utils.BoldUnwraps | distributed_jobman/utils.py:15-19 | removing the codes gives the text back |
| Utils.Hash | distributed_jobman/utils.py:44-60 | a handle becomes its table name, a session None, any other scalar itself; lists and dicts become tuples of one item per element |
| Utils.HashDicts | distributed_jobman/utils.py:44-60 | the hash has one item per argument |
| Utils.HashDictsItems | distributed_jobman/utils.py:46-58 | each argument is hashed on its own, in order |
| Utils.HashedMapping | distributed_jobman/utils.py:47-50 | a dict hashes to its (key, value) pairs in key order |
| Utils.HashedDictComplete | distributed_jobman/utils.py:47-50 | every item of a dict appears in its hash |
| Utils.HashedDictSound | distributed_jobman/utils.py:47-50 | every item of the hash comes from the dict |
| Utils.HashedDictSorted | distributed_jobman/utils.py:48-49 | the hashed items are sorted by key |
| Utils.DictOrderInsensitive | distributed_jobman/utils.py:47-50 | two dicts with the same items hash equal whatever order they yield them in |
| Utils.CacheKey | distributed_jobman/utils.py:84-86 | the key has one item per positional argument and one per keyword argument; each item is the argument's hash with every boolean replaced by the number it equals, as the cache dict compares keys |
| Utils.CacheKeyOrder | distributed_jobman/utils.py:84-86 | the key does not depend on the order of the keyword arguments |
| Utils.KeyFormEq | distributed_jobman/utils.py:86-88 | two hashed values have the same key form exactly when they are `==` in Python: plain values by Python equality (so `True == 1`), tuples item by item |
| Utils.CacheKeySame | distributed_jobman/utils.py:84-88 | two calls are stored under the same key exactly when their hashed positional and keyword arguments are `==` in Python |
| Utils.TrueIsOne | distributed_jobman/utils.py:84-88 | `f(1)` and `f(True)` share one cache entry |
| Memo.NewInstance | distributed_jobman/utils.py:66-67 | a new instance has its timeout and no `self.cache` yet; nothing else changes |
| Memo.Decorate | distributed_jobman/utils.py:79-81 | decorating makes one new empty table, binds it to the function's name and to the instance's `self.cache`, and records the instance's timeout; every wrapper of that instance now reads the new table; other instances and names are kept |
| Memo.Call | distributed_jobman/utils.py:83-93 | a stored result at most `timeout` old in the instance's current table is returned and nothing changes; otherwise the computed result is returned and stored there with its time; no other table changes. The key is `Utils.CacheKey`, so calls whose arguments are `==` in Python share an entry |
| Memo.SharedInstance | distributed_jobman/utils.py:79-92 | after one instance decorates f and then g, f's wrapper stores into g's table and g's wrapper returns f's result for the same key; the table bound to f's name stays empty |
| Memo.CallRemembers | distributed_jobman/utils.py:87-93 | a result computed on a miss is served again, without recomputing, while it is at most `timeout` old |
| Memo.CallKeepsValid | distributed_jobman/utils.py:83-93 | calls keep every name bound to its own table |
| Memo.Young | distributed_jobman/utils.py:73-76 | the kept entries are exactly those younger than the timeout |
| Memo.CollectAsWritten | distributed_jobman/utils.py:70-77 | collecting binds each name to a new table and leaves every existing table unchanged |
| Memo.Rebind | distributed_jobman/utils.py:73-77 | one step of `collect`: the name gets a new table with the young entries of its old one |
| Memo.CollectAsWrittenDetaches | distributed_jobman/utils.py:77-80 | after `collect`, the instance's `self.cache` still holds every stale entry, and it is no longer the table the class binds to the name |
| Memo.Collect | distributed_jobman/utils.py:70-77 | collecting in place keeps every binding and every table |
| Memo.CollectEvicts | distributed_jobman/utils.py:70-77 | after collecting, each collected name's table holds exactly its entries younger than the timeout; other tables are untouched |
| Memo.YoungTwice | distributed_jobman/utils.py:75-76 | collecting twice at the same time evicts nothing more |
| Memo.BoundaryAge | distributed_jobman/utils.py:75-89 | an entry exactly `timeout` old is still served by a call but evicted by a collection |
| Commands.Quota | distributed_jobman/main.py:204-214 | the quota is at most the waiting jobs and at most max(max_running - user_submitted, 0); with a positive max_queued it is also at most max_queued - total_submitted; it is one of these bounds |
| Commands.QuotaWithoutCeiling | distributed_jobman/main.py:204-209 | with max_queued at most 0 the quota is min(waiting, max(max_running - user_submitted, 0)), and it is never negative |
| Commands.QuotaWithCeiling | distributed_jobman/main.py:209-214 | with a positive max_queued the quota is min(max_queued - total_submitted, the quota without the ceiling), and it is negative when total_submitted exceeds max_queued |
| Commands.QuotaMonotone | distributed_jobman/main.py:204-207 | lowering max_running never raises the quota |
| Commands.Setting | distributed_jobman/main.py:204-211 | a cluster setting used in the quota is the number stored at it; TypeError when it is not a number |
| Commands.MonitorSingle | distributed_jobman/main.py:193-216 | a missing `name` or `table` raises KeyError first, then failures of the counts come out in reading order; the pass succeeds exactly when the counts and settings it reads are present, max_queued is None or a number, and the total is present when max_queued passes the `> 0` test; the quota is then never more than the waiting jobs |
| Commands.MonitorCeilingNotNumber | distributed_jobman/main.py:209-212 | a string, list or dict max_queued is above 0 in Python 2, so the total is read and the subtraction raises TypeError |
| Commands.MonitorCeilingNone | distributed_jobman/main.py:209-214 | a None max_queued is below 0, so the total is not read and the quota is min(waiting, max(max_running - user_submitted, 0)) |
| Commands.Quotas | distributed_jobman/main.py:187-188 | one quota per experiment, in order; monitoring fails exactly when one pass fails |
| Commands.Monitor | distributed_jobman/main.py:177-179 | monitoring without a cluster raises ValueError |
| Commands.Dispatch | distributed_jobman/main.py:240-247 | jobs are submitted exactly when the quota is positive; the count is at most the quota, and at most the limit when one is set; it is the quota or the limit, and positive for a non-negative limit |
| Commands.DispatchNegativeLimit | distributed_jobman/main.py:241-243 | a negative limit passes the truthiness test and is submitted as given |
| Commands.Launch | distributed_jobman/main.py:219-247 | launching without a cluster raises ValueError; otherwise it succeeds exactly when every pass does, and makes one decision per experiment from that experiment's quota |
| Commands.LaunchPass | distributed_jobman/main.py:237-245 | one pass fails with its monitoring error, or, when it submits, when the dispatch command for its count cannot be built; otherwise it is the dispatch decision on its quota |
| Commands.LaunchPasses | distributed_jobman/main.py:237-250 | the passes succeed exactly when each pass does, giving one decision per pass in order |
| Commands.LaunchStopsAt | distributed_jobman/main.py:237-250 | after passes that succeed, the first failing pass's error is the launch's error |
| Commands.LaunchNeedsRoot | distributed_jobman/main.py:237-245 | a pass that would submit jobs for an experiment whose cluster has no `root` makes the launch raise KeyError |
| Commands.LaunchWithinWaiting | distributed_jobman/main.py:238-245 | in a successful launch an experiment submits exactly when its quota is positive, and never more jobs than it has waiting |
| Commands.IdStrings | distributed_jobman/main.py:121 | one id per job, a scalar id written as `str` writes it; fails exactly when a job has no id |
| Commands.Shown | distributed_jobman/main.py:122 | at most the maximum ids are shown, sorted as strings, taken from the ids, and no hidden id sorts before a shown one |
| Commands.FormatIds | distributed_jobman/main.py:120-126 | with more ids than the maximum, the text is the shown ids joined by ", " and then ", ..."; otherwise it is all ids sorted and joined |
| Commands.FormatIdsEllipsis | distributed_jobman/main.py:123-124 | with non-negative integer ids, the text ends with ", ..." exactly when there are more jobs than the maximum |
| Commands.Bucket | distributed_jobman/main.py:156-164 | bucketing fails exactly when a job has no status, and the four buckets together hold at most the jobs listed |
| Commands.WaitingFiltered | distributed_jobman/main.py:156-158 | the waiting bucket is exactly the pending jobs, in order |
| Commands.RunningFiltered | distributed_jobman/main.py:159-160 | the running bucket is exactly the running jobs, in order |
| Commands.CompletedFiltered | distributed_jobman/main.py:161-162 | the completed bucket is exactly the completed jobs, in order |
| Commands.BrokenFiltered | distributed_jobman/main.py:163-164 | the broken bucket is exactly the broken jobs, in order |
| Commands.ListJobs | distributed_jobman/main.py:150-174 | the total is the number of jobs; each line's count and id text are those of the pending, running, completed or broken jobs in table order; listing fails exactly when bucketing or one line's id text fails |
| Commands.Describe | distributed_jobman/main.py:167-174 | a bucket's line holds the number of its jobs and their id text, and fails exactly when the id text does |
| Commands.TargetStatus | distributed_jobman/main.py:318-324 | pending, running and completed map to the START, RUNNING and DONE codes; any other name leaves the code unbound |
| Commands.SelectJobs | distributed_jobman/main.py:309-316 | the four status names select by status and write nothing; any other name leaves the selection unbound |
| Commands.SelectedOfKind | distributed_jobman/main.py:309-316 | every job selected has the status the name asks for |
| Commands.TableName | distributed_jobman/main.py:310 | the experiment's table name; KeyError without one |
| Commands.SetJobs | distributed_jobman/main.py:299-329 | a found experiment with an unknown status name raises KeyError without a `table` and NameError (the unbound `jobs`) otherwise, whatever the table's type; an unknown experiment or target status leaves every table unchanged; success on a found experiment means both status names were known, the table name is a string, and every other table is unchanged |
| Commands.SetJobsWrites | distributed_jobman/main.py:327-329 | the experiment's table after is exactly the selected jobs updated with the new status code and `proc_status` |
| Commands.ResetJobs | distributed_jobman/main.py:332-333 | resetting on a found experiment with an unknown status name raises KeyError without a `table` and NameError otherwise; a successful reset had a known status and changed no table but the experiment's; an unknown status or experiment leaves every table unchanged |
| Commands.ResetJobsWrites | distributed_jobman/main.py:327-333 | resetting writes to the selected jobs exactly the update that sets the START code and `proc_status` "pending" |
| Commands.StatusUpdate | distributed_jobman/main.py:327-329 | the update has exactly the keys `jobman` and `proc_status`; `jobman.status` holds the code and `proc_status` the new status name |
| Commands.IdMessage | distributed_jobman/main.py:285-288 | the refusal message can be formatted exactly when the job has a numeric id |
| Commands.RunState | distributed_jobman/main.py:274-290 | a new job is registered and marked RUNNING; a found job is taken over with its other attributes kept and marked RUNNING; a job that is not pending is refused unless forced |
| Commands.Registered | distributed_jobman/main.py:274 | a new job gets the START status under `jobman` and keeps every other key of its configuration |
| Commands.RunRefused | distributed_jobman/main.py:283-285 | a found job that is not pending, when not forced, raises RuntimeError |
| Commands.RunKeepsJobman | distributed_jobman/main.py:281-290 | taking over a job keeps everything under `jobman` except the status |

## Left out

- `SafeSession` and `Timer` (watchdog threads, signal handlers, rollback on timeout): a session is modelled as either committing or not.
- Running commands in a shell (`_run_process`, the execution step of `submit_job`, `submit_local_job`), and the `qstat`/`showq` process calls: this is I/O, so the listings they print are inputs. The command `submit_job` runs is built in the model (`Jobs.DispatchCommand`), and `Commands.LaunchPass` fails when it cannot be built.
- `parsers/nvidia.py`, `plot.py`, `parsers/config.py` and `__init__.py`: these are hardware queries, plotting, configuration files and re-exports.
- Argument parsing, all printing, `query_yes_no`, `random.shuffle` and `time.sleep`: the experiment order a pass visits is an input.
- `list_experiments`: it only prints.
- The internals of the jobman library (`flatten`/`expand`, `insert_dict`, `update_simple`): a record is kept in expanded form, and a partial update is a deep merge.
- The values of jobman's status constants: they are taken as the integers 0 to 5.
- The repair path of `load` (database.py:154-161): it passes one dict where `delete` expects rows. A row without `jobman.id` is reported as a KeyError.
- The lookup in `run` (main.py:276-278): it passes a keyword `load_jobs` does not accept. The jobs it would find are an input to `Commands.RunState`.
- `save_experiment` and `save_job` around `run`, and the dynamic `resolve(...).jobman_main` call.
- `set_jobs` writes `sql.COMPLETE` for "completed": the constant is not part of this model and is taken to be `DONE`.
- `is_int`, which `qstat.py` imports but `utils.py` does not define: it is taken to be a test for a decimal digit.
- Times are integers: the float clock of `time.time()` is not modelled.
- Two decorated functions with the same name: the class keys its tables by function name, and the model gives each name one binding, as the class does.
- Utils.Hash: the keys of a dict are strings, and two items are ordered by key alone, so a dict with two equal keys is outside the model.
- Experiments.ValidateForLoading: when the clusters mix dicts and non-dicts, the model always raises AttributeError. Python raises whichever error the first failing cluster in dict iteration order gives, which may be KeyError; dict order is not modelled.
- Database.LoadRows and Database.LoadFiltered: they return rows in store order. The query has no `ORDER BY`, so the store may return them in any order.
- Commands.IdStrings: a list or dict id is rendered as the placeholder `[...]` or `{...}`, not as Python's `str` of the container. Nested container text is not modelled.
- Commands.Launch: it returns the whole decision list or the first error, so the submissions made by the passes before a failing pass are not reported; the shell runs of those submissions are not modelled.
- Experiments.ValidateForSaving: when several clusters fail, the model raises TypeError if any cluster raises it and ValueError otherwise. Python raises the error of the first failing cluster in dict iteration order, which is not modelled.
- Database.RowFor: an id that is a string, list or dict goes to the driver's `get`, whose behaviour is outside this model; it is taken to raise TypeError.
- Text.ParseInt: a value beyond a machine long goes to Python's long parser, which rejects blanks after the sign; integers are unbounded here and that parser is not modelled.
- Database.DbStringOf and Jobs.ExperimentDbString: a list or dict table is written into the connection string as the placeholder `[...]` or `{...}`, not as Python's `str` of the container.
- Commands.FormatIds: `show_maximum` is a natural number; the negative slices Python would allow are not modelled.
- Observer.CountArrayRequest: the test of `array_request` followed by the read of `job_array_request` is kept as written, so a qstat listing, which names the field `job_array_request`, counts one per job.

## Findings

| source | as written | input that shows it | evidently intended | confidence | as-written member | corrected member |
|---|---|---|---|---|---|---|
| distributed_jobman/observer.py:5-18 | the count functions call `_load_pending_jobs`, `_load_running_jobs`, `_load_completed_jobs` and `_load_broken_jobs`, which the jobs module does not define | any table name: the attribute lookup raises AttributeError before anything is loaded | count the jobs returned by `load_pending_jobs` and its siblings | not executed | Observer.CountAsWritten | Observer.CountByStatus |
| distributed_jobman/utils.py:77 | `collect` rebinds `_caches[func]` to a new dict, while each wrapper keeps reading and writing its instance's `self.cache`, the old dict | decorate a function, call it, and collect after the timeout: the wrapper's table still holds the stale entry, and later results go to a table no collection reaches | evict the timed-out entries from the table the wrapper uses | not executed | Memo.CollectAsWrittenDetaches | Memo.CollectEvicts |
