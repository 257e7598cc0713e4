/** The parser of `distributed_jobman/parsers/qstat.py` for the output of
    the batch scheduler's `qstat`.

    The row listing (`qstat -t`) has one row per running array element,
    starting with the job's numeric id; the full listing (`qstat -f`) has
    one block per job, blocks separated by a blank line, each a header line
    ending in the job id followed by `key = value` lines, a value that
    wraps continuing on lines that start with a tab. */
module Qstat {
  import opened Wrappers
  import opened Values
  import Text
  import Seqs

  // ---------------------------------------------------------------------
  // rows per job id

  /** A row the count looks at: not blank, and starting with a digit. */
  predicate Counted(row: string) {
    |row| > 0 && Text.Strip(row) != "" && Text.IsDigit(row[0])
  }

  /** The job id a counted row starts with. */
  function RowId(row: string): nat {
    Text.DigitsValue(Text.LeadingDigits(row))
  }

  /** The rows counted for job `id`. */
  function RowOf(id: int): string -> bool {
    (row: string) => Counted(row) && RowId(row) == id
  }

  /** A `defaultdict(int)` read: absent ids count zero. */
  function CountOf(counts: map<int, nat>, id: int): nat {
    if id in counts then counts[id] else 0
  }

  /** The loop filling `row_counts`, over the rows taken in order. */
  function RowCounts(rows: seq<string>): (r: map<int, nat>)
    ensures forall id | id in r :: r[id] > 0
    decreases |rows|
  {
    if |rows| == 0 then map[]
    else
      var counts := RowCounts(rows[..|rows| - 1]);
      var row := rows[|rows| - 1];
      if Counted(row) then counts[RowId(row) := CountOf(counts, RowId(row)) + 1] else counts
  }

  /** Each id counts exactly the rows that start with it. */
  lemma {:induction false} RowCountsCount(rows: seq<string>, id: int)
    ensures CountOf(RowCounts(rows), id) == |Seqs.Filter(rows, RowOf(id))|
    decreases |rows|
  {
    if |rows| > 0 {
      var front, row := rows[..|rows| - 1], rows[|rows| - 1];
      RowCountsCount(front, id);
      assert rows == front + [row];
      Seqs.FilterConcat(front, [row], RowOf(id));
      assert [row][1..] == [];
    }
  }

  // ---------------------------------------------------------------------
  // one job block

  /** The job id on a block's header line: what follows its last ':',
      stripped. */
  function HeaderId(header: string): string {
    Text.Strip(Text.Last(Text.Split(header, ":")))
  }

  /** A header `p:t` names the job `t`, stripped, whatever `p` holds. */
  lemma HeaderIdAfterColon(p: string, t: string)
    requires ':' !in t
    ensures HeaderId(p + ":" + t) == Text.Strip(t)
  {
    Text.LastAfterSingle(p, ':', t);
  }

  /** The fields read so far and the key the last `key = value` line set. */
  datatype Parsing = Parsing(fields: map<string, string>, lastKey: Option<string>)

  /** One line of a block: a continuation appends to the last key's value;
      any other line is split at `" = "`, its first piece being the key and
      the other pieces, joined back, the value. An empty line has no first
      character and raises `IndexError`. */
  function ReadLine(p: Parsing, line: string): (r: Result<Parsing>)
    ensures |line| == 0 ==> r == Err(IndexError)
    ensures |line| > 0 && line[0] == '\t' && p.lastKey.None? ==> r == Err(ValueError)
    ensures |line| > 0 && line[0] == '\t' && p.lastKey.Some? && p.lastKey.value in p.fields ==>
              r == Ok(Parsing(p.fields[p.lastKey.value := p.fields[p.lastKey.value] + line[1..]], p.lastKey))
    ensures |line| > 0 && line[0] != '\t' ==> r.Ok? && r.value.lastKey.Some? && r.value.lastKey.value in r.value.fields
    ensures r.Ok? ==> r.value.fields.Keys >= p.fields.Keys
  {
    if |line| == 0 then Err(IndexError)
    else if line[0] == '\t' then
      match p.lastKey
      case None => Err(ValueError)
      case Some(k) =>
        if k in p.fields then Ok(Parsing(p.fields[k := p.fields[k] + line[1..]], Some(k))) else Err(KeyError)
    else
      var pieces := Text.Split(line, " = ");
      var key := Text.Strip(pieces[0]);
      Ok(Parsing(p.fields[key := Text.Strip(Text.Join(" = ", pieces[1..]))], Some(key)))
  }

  /** A `key = value` line sets the stripped text before the first `" = "`
      to the stripped text after it, so a value may itself hold `" = "`; a
      line without `" = "` sets itself, stripped, to the empty value. */
  lemma KeyValueLine(p: Parsing, line: string)
    requires |line| > 0 && line[0] != '\t'
    ensures match Text.IndexOf(line, " = ")
            case Some(i) =>
              ReadLine(p, line) == Ok(Parsing(p.fields[Text.Strip(line[..i]) := Text.Strip(line[i + 3..])],
                                              Some(Text.Strip(line[..i]))))
            case None =>
              ReadLine(p, line) == Ok(Parsing(p.fields[Text.Strip(line) := ""], Some(Text.Strip(line))))
  {
    Text.JoinSplitTail(line, " = ");
  }

  /** The first `" = "` of `k = v` is the one after `k` when `k` has no
      '='. */
  lemma FirstAssignment(k: string, v: string)
    requires '=' !in k
    ensures Text.IndexOf(k + " = " + v, " = ") == Some(|k|)
  {
    var s := k + " = " + v;
    assert Text.OccursAt(s, " = ", |k|) by {
      assert s[|k|..|k| + 3] == " = ";
    }
    Text.IndexOfFromFirst(s, " = ", 0);
    forall j: nat | j < |k|
      ensures !Text.OccursAt(s, " = ", j)
    {
      if j + 1 < |k| {
        assert s[j + 1] == k[j + 1];
      } else {
        assert s[j + 1] == ' ';
      }
      assert s[j..j + 3][1] == s[j + 1];
    }
  }

  /** Reading `k = v` for a key without '=' sets `k` to `v`, both stripped,
      whatever `" = "` the value holds. */
  lemma ReadAssignment(p: Parsing, k: string, v: string)
    requires '=' !in k && |k| > 0 && k[0] != '\t'
    ensures ReadLine(p, k + " = " + v) == Ok(Parsing(p.fields[Text.Strip(k) := Text.Strip(v)], Some(Text.Strip(k))))
  {
    var line := k + " = " + v;
    FirstAssignment(k, v);
    KeyValueLine(p, line);
    assert line[..|k|] == k && line[|k| + 3..] == v;
  }

  /** The lines of a block after its header, in order. */
  function ReadLines(p: Parsing, lines: seq<string>): (r: Result<map<string, string>>)
    ensures r.Ok? ==> r.value.Keys >= p.fields.Keys
    decreases |lines|
  {
    if |lines| == 0 then Ok(p.fields)
    else
      var next :- ReadLine(p, lines[0]);
      ReadLines(next, lines[1..])
  }

  /** Whether `line` is a `key = value` line setting `key`. */
  predicate SetsKey(line: string, key: string) {
    |line| > 0 && line[0] != '\t' && Text.Strip(Text.Split(line, " = ")[0]) == key
  }

  /** A field no line sets, and that is not the key continuation lines
      would extend, keeps its value through the block. */
  lemma {:induction false} ReadLinesKeeps(p: Parsing, lines: seq<string>, key: string)
    requires key in p.fields && p.lastKey != Some(key)
    requires forall k :: 0 <= k < |lines| ==> !SetsKey(lines[k], key)
    requires ReadLines(p, lines).Ok?
    ensures ReadLines(p, lines).value[key] == p.fields[key]
    decreases |lines|
  {
    if |lines| > 0 {
      var next := ReadLine(p, lines[0]).value;
      assert !SetsKey(lines[0], key);
      assert next.fields[key] == p.fields[key] && next.lastKey != Some(key);
      assert forall k :: 0 <= k < |lines[1..]| ==> lines[1..][k] == lines[k + 1];
      ReadLinesKeeps(next, lines[1..], key);
    }
  }

  /** A job's fields as values, with the number of its rows running. */
  function JobRecord(fields: map<string, string>, counts: map<int, nat>): (r: Result<Record>)
    requires "id" in fields
    ensures r.Ok? <==> Text.LeadingDigits(fields["id"]) != ""
    ensures r.Err? ==> r.error == ValueError
    ensures r.Ok? ==> r.value.Keys == fields.Keys + {"job_array_running"}
    ensures r.Ok? ==> r.value["job_array_running"] == Int(CountOf(counts, Text.DigitsValue(Text.LeadingDigits(fields["id"]))))
    ensures r.Ok? ==> forall k | k in fields && k != "job_array_running" :: r.value[k] == Str(fields[k])
  {
    var digits := Text.LeadingDigits(fields["id"]);
    if digits == "" then Err(ValueError)
    else
      var record := map k | k in fields :: Str(fields[k]);
      Ok(record["job_array_running" := Int(CountOf(counts, Text.DigitsValue(digits)))])
  }

  /** One block of the full listing. */
  function ParseBlock(block: string, counts: map<int, nat>): (r: Result<Record>)
    ensures r.Ok? ==> "id" in r.value && r.value["id"].Str? && "job_array_running" in r.value
    ensures r.Ok? ==> Text.LeadingDigits(r.value["id"].s) != ""
    ensures r.Ok? ==> r.value["job_array_running"] == Int(CountOf(counts, Text.DigitsValue(Text.LeadingDigits(r.value["id"].s))))
  {
    var lines := Text.Split(block, "\n");
    var fields :- ReadLines(Parsing(map["id" := HeaderId(lines[0])], None), lines[1..]);
    JobRecord(fields, counts)
  }

  /** Unless a line sets `id` itself, a job's id is the one on the block's
      header line. */
  lemma BlockId(block: string, counts: map<int, nat>)
    requires ParseBlock(block, counts).Ok?
    requires forall k :: 1 <= k < |Text.Split(block, "\n")| ==> !SetsKey(Text.Split(block, "\n")[k], "id")
    ensures ParseBlock(block, counts).value["id"] == Str(HeaderId(Text.Split(block, "\n")[0]))
  {
    var lines := Text.Split(block, "\n");
    var start := Parsing(map["id" := HeaderId(lines[0])], None);
    assert forall k :: 0 <= k < |lines[1..]| ==> lines[1..][k] == lines[k + 1];
    ReadLinesKeeps(start, lines[1..], "id");
  }

  // ---------------------------------------------------------------------
  // the whole listing

  predicate NonBlank(block: string) {
    Text.Strip(block) != ""
  }

  /** `parse` applied to each block in turn; the first block it fails on
      aborts the whole. */
  function ParseEach(blocks: seq<string>, parse: string -> Result<Record>): (r: Result<seq<Record>>)
    ensures r.Ok? <==> forall k :: 0 <= k < |blocks| ==> parse(blocks[k]).Ok?
    ensures r.Ok? ==> |r.value| == |blocks| && forall k :: 0 <= k < |blocks| ==> parse(blocks[k]) == Ok(r.value[k])
    decreases |blocks|
  {
    if |blocks| == 0 then Ok([])
    else
      var job :- parse(blocks[0]);
      match ParseEach(blocks[1..], parse)
      case Err(e) =>
        assert exists k :: 0 < k < |blocks| && parse(blocks[k]).Err? by {
          var k :| 0 <= k < |blocks[1..]| && parse(blocks[1..][k]).Err?;
          assert blocks[1..][k] == blocks[k + 1];
        }
        Err(e)
      case Ok(rest) =>
        assert forall k :: 0 < k < |blocks| ==> blocks[k] == blocks[1..][k - 1];
        Ok([job] + rest)
  }

  function BlockParser(counts: map<int, nat>): string -> Result<Record> {
    (block: string) => ParseBlock(block, counts)
  }

  /** The loop over the blocks: blank ones are skipped, every other block
      gives one job, in order. */
  function ParseBlocks(blocks: seq<string>, counts: map<int, nat>): (r: Result<seq<Record>>)
    ensures r.Ok? ==> |r.value| == |Seqs.Filter(blocks, NonBlank)|
    ensures r.Ok? ==> forall k :: 0 <= k < |r.value| ==> "id" in r.value[k] && "job_array_running" in r.value[k]
  {
    ParseEach(Seqs.Filter(blocks, NonBlank), BlockParser(counts))
  }

  /** The `k`-th job is what the `k`-th non-blank block parses to. */
  lemma ParseBlocksJob(blocks: seq<string>, counts: map<int, nat>, k: nat)
    requires ParseBlocks(blocks, counts).Ok? && k < |ParseBlocks(blocks, counts).value|
    ensures ParseBlock(Seqs.Filter(blocks, NonBlank)[k], counts) == Ok(ParseBlocks(blocks, counts).value[k])
  {
    var kept := Seqs.Filter(blocks, NonBlank);
    assert BlockParser(counts)(kept[k]) == Ok(ParseBlocks(blocks, counts).value[k]);
  }

  /** A non-blank block that does not parse fails the whole listing ... */
  lemma ParseBlocksFail(blocks: seq<string>, counts: map<int, nat>, k: nat)
    requires k < |Seqs.Filter(blocks, NonBlank)| && ParseBlock(Seqs.Filter(blocks, NonBlank)[k], counts).Err?
    ensures ParseBlocks(blocks, counts).Err?
  {
    var kept := Seqs.Filter(blocks, NonBlank);
    assert BlockParser(counts)(kept[k]).Err?;
  }

  /** ... and when every non-blank block parses, so does the listing. */
  lemma ParseBlocksSucceed(blocks: seq<string>, counts: map<int, nat>)
    requires forall k :: 0 <= k < |Seqs.Filter(blocks, NonBlank)| ==> ParseBlock(Seqs.Filter(blocks, NonBlank)[k], counts).Ok?
    ensures ParseBlocks(blocks, counts).Ok?
  {
    var kept := Seqs.Filter(blocks, NonBlank);
    assert forall k :: 0 <= k < |kept| ==> BlockParser(counts)(kept[k]).Ok?;
  }

  /** `parse_qstat`. */
  function ParseQstat(rowText: string, fullText: string): (r: Result<seq<Record>>)
    ensures var kept := Seqs.Filter(Text.Split(fullText, "\n\n"), NonBlank);
            r.Ok? ==> |r.value| == |kept|
    ensures r.Ok? ==> forall k :: 0 <= k < |r.value| ==> "id" in r.value[k] && "job_array_running" in r.value[k]
  {
    ParseBlocks(Text.Split(fullText, "\n\n"), RowCounts(Text.Split(rowText, "\n")))
  }

  /** Every job's `job_array_running` is the number of rows of the row
      listing that start with the job's numeric id, zero when none does. */
  lemma ArrayRunning(rowText: string, fullText: string, k: nat)
    requires ParseQstat(rowText, fullText).Ok? && k < |ParseQstat(rowText, fullText).value|
    ensures var job := ParseQstat(rowText, fullText).value[k];
            var id := job["id"].s;
            Text.LeadingDigits(id) != ""
            && job["job_array_running"]
               == Int(|Seqs.Filter(Text.Split(rowText, "\n"), RowOf(Text.DigitsValue(Text.LeadingDigits(id))))|)
  {
    var rows := Text.Split(rowText, "\n");
    var job := ParseQstat(rowText, fullText).value[k];
    ParseBlocksJob(Text.Split(fullText, "\n\n"), RowCounts(rows), k);
    RowCountsCount(rows, Text.DigitsValue(Text.LeadingDigits(job["id"].s)));
  }

  // ---------------------------------------------------------------------
  // selecting one job

  function HasId(jobId: Value): Record -> bool {
    (job: Record) => "id" in job && PyEq(job["id"], jobId)
  }

  /** Whether `qstat` narrows the listing: an id was passed, and it is not
      `None`. */
  predicate Narrows(jobId: Option<Value>) {
    jobId.Some? && !jobId.value.VNone?
  }

  /** The last step of `qstat`: every job, or only those with the given id. */
  function SelectJobs(jobs: seq<Record>, jobId: Option<Value>): (r: seq<Record>)
    ensures !Narrows(jobId) ==> r == jobs
    ensures Narrows(jobId) ==>
              (forall k :: 0 <= k < |r| ==> r[k] in jobs && "id" in r[k] && PyEq(r[k]["id"], jobId.value))
              && (forall k :: 0 <= k < |jobs| && "id" in jobs[k] && PyEq(jobs[k]["id"], jobId.value) ==> jobs[k] in r)
  {
    if Narrows(jobId) then Seqs.Filter(jobs, HasId(jobId.value)) else jobs
  }

  /** `qstat` once the two listings are read: the parsed jobs, narrowed to
      the given id when there is one. */
  function Qstat(rowText: string, fullText: string, jobId: Option<Value>): (r: Result<seq<Record>>)
    ensures r.Ok? <==> ParseQstat(rowText, fullText).Ok?
    ensures r.Ok? && !Narrows(jobId) ==> r.value == ParseQstat(rowText, fullText).value
    ensures r.Ok? && Narrows(jobId) ==> r.value == Seqs.Filter(ParseQstat(rowText, fullText).value, HasId(jobId.value))
    ensures r.Ok? && Narrows(jobId) ==>
              (forall k :: 0 <= k < |r.value| ==> r.value[k] in ParseQstat(rowText, fullText).value
                                                  && PyEq(r.value[k]["id"], jobId.value))
              && (forall k :: 0 <= k < |ParseQstat(rowText, fullText).value|
                             && PyEq(ParseQstat(rowText, fullText).value[k]["id"], jobId.value)
                             ==> ParseQstat(rowText, fullText).value[k] in r.value)
  {
    var jobs :- ParseQstat(rowText, fullText);
    Ok(SelectJobs(jobs, jobId))
  }
}
