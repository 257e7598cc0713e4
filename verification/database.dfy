/** The store facade of `distributed_jobman/database.py`.

    A table is a sequence of stored rows, each with the integer id the store
    assigned it and its attributes as a (nested) record, plus the next id to
    assign. The driver's per-row operations that can fail inside a
    `try`/`except` are modelled by a set `failing` of row ids whose
    update or delete raises. A session that raises before `commit` leaves the
    tables as they were; the per-table handle cache survives either way. */
module Database {
  import opened Wrappers
  import opened Values
  import Text
  import Seqs

  // ---------------------------------------------------------------------
  // connection strings and the handle cache

  datatype Credentials = Credentials(username: string, password: string, address: string, name: string)

  /** `DB_STRING_TEMPLATE` with the credentials filled in, up to the
      table name's `=`. */
  function DbPrefix(c: Credentials): string {
    "postgres://" + c.username + ":" + c.password + "@" + c.address + "/" + c.name + "?table"
  }

  /** `get_db_string`: a table name containing '-' is refused. */
  function DbString(c: Credentials, table: string): (r: Result<string>)
    ensures r.Err? <==> '-' in table
    ensures r.Err? ==> r.error == ValueError
    ensures r.Ok? ==> |r.value| > |table| && r.value[|r.value| - |table|..] == table
    ensures r.Ok? ==> var n := |DbPrefix(c)| + 1;
                      |r.value| == n + |table| && r.value[..n] == DbPrefix(c) + "=" && r.value[n..] == table
  {
    if '-' in table then Err(ValueError)
    else
      var s := DbPrefix(c) + "=" + table;
      assert s[|s| - |table|..] == table;
      assert s[..|DbPrefix(c)| + 1] == DbPrefix(c) + "=";
      Ok(s)
  }

  /** `get_db_string` on a table of any type: `"-" in table` is substring
      search on a string, key membership on a dictionary and element
      equality on a list, while a number, a boolean or `None` cannot be
      searched; a table without '-' is written into the template by `%s`. */
  function DbStringOf(c: Credentials, table: Value): (r: Result<string>)
    ensures r.Ok? <==> In("-", table) == Ok(false)
    ensures r.Err? ==> r.error == (if In("-", table).Err? then TypeError else ValueError)
    ensures r.Ok? ==> r.value == DbPrefix(c) + "=" + Render(table)
    ensures table.Str? ==> r == DbString(c, table.s)
  {
    if table.Str? then
      Text.NotContainsSingle(table.s, '-');
      DbString(c, table.s)
    else
      var dash :- In("-", table);
      if dash then Err(ValueError) else Ok(DbPrefix(c) + "=" + Render(table))
  }

  /** The connection string names the table: what follows its last '=' is
      the table name, whenever the name itself has no '='. */
  lemma DbStringNamesTable(c: Credentials, table: string)
    requires '-' !in table && '=' !in table
    ensures DbString(c, table).Ok?
    ensures Text.Last(Text.Split(DbString(c, table).value, "=")) == table
  {
    Text.LastAfterSingle(DbPrefix(c), '=', table);
  }

  /** A handle to one table; `serial` tells apart handles opened at
      different times. */
  datatype Handle = Handle(dbString: string, serial: nat)

  datatype Db = Db(creds: Credentials, handles: map<string, Handle>, openCount: nat, tables: map<string, Table>)

  datatype Opened = Opened(handle: Handle, db: Db)

  /** `_open_db`: the cached handle when there is one, otherwise a new handle
      on the table's connection string, remembered for later calls. */
  function OpenDb(db: Db, name: string): (r: Result<Opened>)
    ensures name in db.handles ==> r == Ok(Opened(db.handles[name], db))
    ensures name !in db.handles ==> (r.Ok? <==> '-' !in name)
    ensures name !in db.handles && r.Ok? ==>
              r.value.handle == Handle(DbString(db.creds, name).value, db.openCount)
    ensures r.Ok? ==> r.value.db.tables == db.tables && r.value.db.creds == db.creds
    ensures r.Ok? ==> r.value.db.handles == db.handles[name := r.value.handle]
    ensures r.Ok? ==> r.value.db.openCount == db.openCount + (if name in db.handles then 0 else 1)
  {
    if name in db.handles then Ok(Opened(db.handles[name], db))
    else
      match DbString(db.creds, name)
      case Err(e) => Err(e)
      case Ok(s) =>
        var h := Handle(s, db.openCount);
        Ok(Opened(h, db.(handles := db.handles[name := h], openCount := db.openCount + 1)))
  }

  /** Every cached handle is on its own table's connection string and was
      opened before the current count. */
  predicate HandlesValid(db: Db) {
    forall n | n in db.handles ::
      DbString(db.creds, n).Ok? && db.handles[n].dbString == DbString(db.creds, n).value
      && db.handles[n].serial < db.openCount
  }

  /** A table is opened at most once: opening it again returns the same
      handle and changes nothing, and the cache stays valid. */
  lemma OpenDbOnce(db: Db, name: string)
    requires HandlesValid(db)
    requires OpenDb(db, name).Ok?
    ensures var o := OpenDb(db, name).value;
            HandlesValid(o.db) && OpenDb(o.db, name) == Ok(o)
    ensures OpenDb(db, name).value.handle.dbString == DbString(db.creds, name).value
  {
  }

  /** Handles of different tables opened while the cache is valid differ. */
  lemma {:induction false} OpenDbDistinct(db: Db, a: string, b: string)
    requires HandlesValid(db) && a != b
    requires OpenDb(db, a).Ok?
    requires OpenDb(OpenDb(db, a).value.db, b).Ok?
    ensures OpenDb(OpenDb(db, a).value.db, b).value.handle != OpenDb(db, a).value.handle
  {
    var o := OpenDb(db, a).value;
    var h := OpenDb(o.db, b).value.handle;
    if b in db.handles {
      assert h == db.handles[b];
      if a in db.handles {
        if h == o.handle {
          DbStringInjective(db.creds, a, b);
        }
      } else {
        assert h.serial < db.openCount == o.handle.serial;
      }
    } else if a in db.handles {
      assert o.handle.serial < db.openCount == h.serial;
    } else {
      assert h.serial == db.openCount + 1;
    }
  }

  lemma DbStringInjective(c: Credentials, a: string, b: string)
    requires DbString(c, a).Ok? && DbString(c, b).Ok?
    requires DbString(c, a).value == DbString(c, b).value
    ensures a == b
  {
    var p := DbPrefix(c) + "=";
    assert DbString(c, a).value == p + a && DbString(c, b).value == p + b;
    assert a == (p + a)[|p|..];
    assert b == (p + b)[|p|..];
  }

  // ---------------------------------------------------------------------
  // tables

  datatype StoredRow = StoredRow(id: int, attrs: Record)

  datatype Table = Table(rows: seq<StoredRow>, nextId: int)

  /** A table the store has never written to. */
  const EmptyTable := Table([], 1)

  function TableOf(db: Db, name: string): Table {
    if name in db.tables then db.tables[name] else EmptyTable
  }

  /** Row ids are unique and below the next id to assign. */
  predicate WellFormed(t: Table) {
    (forall i, j :: 0 <= i < j < |t.rows| ==> t.rows[i].id != t.rows[j].id)
    && (forall i :: 0 <= i < |t.rows| ==> t.rows[i].id < t.nextId)
  }

  /** The position of the first row with the given id. */
  function Find(rows: seq<StoredRow>, id: int): (r: Option<nat>)
    ensures r.Some? ==> r.value < |rows| && rows[r.value].id == id
    ensures r.Some? ==> forall j :: 0 <= j < r.value ==> rows[j].id != id
    ensures r.None? ==> forall j :: 0 <= j < |rows| ==> rows[j].id != id
    decreases |rows|
  {
    if |rows| == 0 then None
    else if rows[0].id == id then Some(0)
    else match Find(rows[1..], id)
      case None => None
      case Some(k) => Some(k + 1)
  }

  /** `_load_in_safe_session(row_id=v)[0]`: a number is looked up (a missing
      one raises `ValueError`); `None` is no id at all, so the query returns
      every row and the first is taken. A string, list or dictionary goes
      to the driver's `get`, whose behaviour is outside this model; it is
      taken to raise `TypeError`. */
  function RowFor(t: Table, v: Value): (r: Result<StoredRow>)
    ensures v.Int? ==> (r.Ok? <==> Find(t.rows, v.i).Some?)
    ensures v.Int? && r.Ok? ==> r.value.id == v.i && r.value in t.rows
    ensures v.Int? && r.Err? ==> r.error == ValueError
  {
    match Numeric(v)
    case Some(i) =>
      (match Find(t.rows, i)
       case Some(k) => Ok(t.rows[k])
       case None => Err(ValueError))
    case None =>
      if v.VNone? then (if |t.rows| > 0 then Ok(t.rows[0]) else Err(IndexError))
      else Err(TypeError)
  }

  /** Rows whose id is not in `ids`, in their order. */
  function Without(rows: seq<StoredRow>, ids: set<int>): (r: seq<StoredRow>)
    ensures |r| <= |rows|
    ensures forall k :: 0 <= k < |r| ==> r[k] in rows && r[k].id !in ids
    ensures forall k :: 0 <= k < |rows| && rows[k].id !in ids ==> rows[k] in r
    decreases |rows|
  {
    if |rows| == 0 then []
    else (if rows[0].id in ids then [] else [rows[0]]) + Without(rows[1..], ids)
  }

  /** Every row whose id is in `ids` receives the partial update. */
  function ApplyUpdate(rows: seq<StoredRow>, ids: set<int>, upd: Record): (r: seq<StoredRow>)
    ensures |r| == |rows|
    ensures forall k :: 0 <= k < |rows| ==> r[k].id == rows[k].id
  {
    seq(|rows|, k requires 0 <= k < |rows| =>
      if rows[k].id in ids then StoredRow(rows[k].id, Merge(rows[k].attrs, upd)) else rows[k])
  }

  /** The integer ids a batch of rows asks for. */
  function RequestedIds(rows: seq<Record>): set<int>
    decreases |rows|
  {
    if |rows| == 0 then {}
    else (if "id" in rows[0] && rows[0]["id"].Int? then {rows[0]["id"].i} else {}) + RequestedIds(rows[1..])
  }

  /** Every row of the batch carries an integer `id`. */
  predicate IntIds(rows: seq<Record>) {
    forall k :: 0 <= k < |rows| ==> "id" in rows[k] && rows[k]["id"].Int?
  }

  // ---------------------------------------------------------------------
  // update

  /** The loop of `update`: looking a row up happens outside the `try`, so a
      row without `id` or with an id the table lacks aborts the batch; only a
      failing `update_simple` is reported and skipped. */
  function UpdateRows(t: Table, rows: seq<Record>, upd: Record, failing: set<int>): (r: Result<Table>)
    ensures r.Ok? ==> r.value.nextId == t.nextId && |r.value.rows| == |t.rows|
    ensures r.Ok? ==> forall k :: 0 <= k < |t.rows| ==> r.value.rows[k].id == t.rows[k].id
    decreases |rows|
  {
    if |rows| == 0 then Ok(t)
    else
      var row := rows[0];
      if "id" !in row then Err(KeyError)
      else match RowFor(t, row["id"])
        case Err(e) => Err(e)
        case Ok(found) =>
          if found.id in failing then
            if Numeric(row["id"]).Some? then UpdateRows(t, rows[1..], upd, failing) else Err(TypeError)
          else UpdateRows(Table(ApplyUpdate(t.rows, {found.id}, upd), t.nextId), rows[1..], upd, failing)
  }

  lemma ApplyUpdateTwice(rows: seq<StoredRow>, a: set<int>, b: set<int>, upd: Record)
    ensures ApplyUpdate(ApplyUpdate(rows, a, upd), b, upd) == ApplyUpdate(rows, a + b, upd)
  {
    var once := ApplyUpdate(rows, a, upd);
    forall k | 0 <= k < |rows| && rows[k].id in a && rows[k].id in b
      ensures Merge(once[k].attrs, upd) == Merge(rows[k].attrs, upd)
    {
      MergeIdempotent(rows[k].attrs, upd);
    }
  }

  lemma ApplyUpdateNone(rows: seq<StoredRow>, upd: Record)
    ensures ApplyUpdate(rows, {}, upd) == rows
  {
  }

  /** A batch whose rows all carry ids present in the table updates exactly
      the requested rows whose update does not fail, each once; every other
      row is left as it was. */
  lemma {:induction false} UpdateRowsEffect(t: Table, rows: seq<Record>, upd: Record, failing: set<int>)
    requires IntIds(rows)
    requires forall k :: 0 <= k < |rows| ==> Find(t.rows, rows[k]["id"].i).Some?
    ensures UpdateRows(t, rows, upd, failing)
            == Ok(Table(ApplyUpdate(t.rows, RequestedIds(rows) - failing, upd), t.nextId))
    decreases |rows|
  {
    if |rows| == 0 {
      assert RequestedIds(rows) - failing == {};
      ApplyUpdateNone(t.rows, upd);
    } else {
      var i := rows[0]["id"].i;
      var rest := rows[1..];
      assert RequestedIds(rows) == {i} + RequestedIds(rest);
      assert forall k :: 0 <= k < |rest| ==> rest[k] == rows[k + 1];
      if i in failing {
        UpdateRowsEffect(t, rest, upd, failing);
        assert RequestedIds(rows) - failing == RequestedIds(rest) - failing;
      } else {
        var t1 := Table(ApplyUpdate(t.rows, {i}, upd), t.nextId);
        forall k | 0 <= k < |rest|
          ensures Find(t1.rows, rest[k]["id"].i).Some?
        {
          var j := Find(t.rows, rest[k]["id"].i).value;
          assert t1.rows[j].id == t.rows[j].id;
        }
        UpdateRowsEffect(t1, rest, upd, failing);
        ApplyUpdateTwice(t.rows, {i}, RequestedIds(rest) - failing, upd);
        assert {i} + (RequestedIds(rest) - failing) == RequestedIds(rows) - failing;
      }
    }
  }

  /** A batch holding a row without an id, or with an integer id the table
      lacks, commits nothing. */
  lemma {:induction false} UpdateRowsAborts(t: Table, rows: seq<Record>, upd: Record, failing: set<int>, k: nat)
    requires k < |rows|
    requires "id" !in rows[k] || (rows[k]["id"].Int? && Find(t.rows, rows[k]["id"].i).None?)
    ensures UpdateRows(t, rows, upd, failing).Err?
    decreases |rows|
  {
    var row := rows[0];
    if k > 0 && "id" in row && RowFor(t, row["id"]).Ok? {
      var found := RowFor(t, row["id"]).value;
      var rest := rows[1..];
      assert rest[k - 1] == rows[k];
      if found.id in failing {
        if Numeric(row["id"]).Some? {
          UpdateRowsAborts(t, rest, upd, failing, k - 1);
        }
      } else {
        var t1 := Table(ApplyUpdate(t.rows, {found.id}, upd), t.nextId);
        if "id" in rows[k] {
          SameIdsFind(t.rows, t1.rows, rows[k]["id"].i);
        }
        UpdateRowsAborts(t1, rest, upd, failing, k - 1);
      }
    }
  }

  /** Tables with the same ids position by position find the same ids. */
  lemma {:induction false} SameIdsFind(a: seq<StoredRow>, b: seq<StoredRow>, id: int)
    requires |a| == |b| && forall k :: 0 <= k < |a| ==> a[k].id == b[k].id
    ensures Find(a, id) == Find(b, id)
    decreases |a|
  {
    if |a| > 0 {
      SameIdsFind(a[1..], b[1..], id);
    }
  }

  // ---------------------------------------------------------------------
  // delete

  /** The loop of `delete`: a failing lookup or delete is caught and
      reported, but the report formats `row['id']` with `%d` again, so a row
      without an `id` (or with one that is not a number) aborts the batch. */
  function DeleteRows(t: Table, rows: seq<Record>, failing: set<int>): (r: Result<Table>)
    ensures r.Ok? ==> r.value.nextId == t.nextId
    decreases |rows|
  {
    if |rows| == 0 then Ok(t)
    else
      var row := rows[0];
      if "id" !in row then Err(KeyError)
      else
        var reportable := Numeric(row["id"]).Some?;
        match RowFor(t, row["id"])
        case Err(_) =>
          if reportable then DeleteRows(t, rows[1..], failing) else Err(TypeError)
        case Ok(found) =>
          if found.id in failing then
            if reportable then DeleteRows(t, rows[1..], failing) else Err(TypeError)
          else DeleteRows(Table(Without(t.rows, {found.id}), t.nextId), rows[1..], failing)
  }

  lemma {:induction false} WithoutTwice(rows: seq<StoredRow>, a: set<int>, b: set<int>)
    ensures Without(Without(rows, a), b) == Without(rows, a + b)
    decreases |rows|
  {
    if |rows| > 0 {
      var r0, rest := rows[0], rows[1..];
      WithoutTwice(rest, a, b);
      if r0.id !in a {
        var once := Without(rows, a);
        assert once == [r0] + Without(rest, a);
        assert once[0] == r0 && once[1..] == Without(rest, a);
        if r0.id in b {
          assert Without(once, b) == Without(Without(rest, a), b);
        } else {
          assert Without(once, b) == [r0] + Without(Without(rest, a), b);
        }
      } else {
        assert Without(rows, a) == Without(rest, a);
        assert Without(rows, a + b) == Without(rest, a + b);
      }
    }
  }

  lemma {:induction false} WithoutAbsent(rows: seq<StoredRow>, ids: set<int>, id: int)
    requires Find(rows, id).None?
    ensures Without(rows, ids + {id}) == Without(rows, ids)
    decreases |rows|
  {
    if |rows| > 0 {
      WithoutAbsent(rows[1..], ids, id);
    }
  }

  lemma FindWithout(rows: seq<StoredRow>, ids: set<int>, id: int)
    requires Find(rows, id).None?
    ensures Find(Without(rows, ids), id).None?
  {
    var r := Without(rows, ids);
    forall j | 0 <= j < |r|
      ensures r[j].id != id
    {
      assert r[j] in rows;
    }
  }

  /** A batch whose rows all carry integer ids removes exactly the requested
      rows whose delete does not fail; ids the table lacks are skipped. */
  lemma {:induction false} DeleteRowsEffect(t: Table, rows: seq<Record>, failing: set<int>)
    requires IntIds(rows)
    ensures DeleteRows(t, rows, failing) == Ok(Table(Without(t.rows, RequestedIds(rows) - failing), t.nextId))
    decreases |rows|
  {
    if |rows| == 0 {
      assert RequestedIds(rows) - failing == {};
      WithoutNone(t.rows);
    } else {
      var i := rows[0]["id"].i;
      var rest := rows[1..];
      assert IntIds(rest) by {
        assert forall k :: 0 <= k < |rest| ==> rest[k] == rows[k + 1];
      }
      assert RequestedIds(rows) == {i} + RequestedIds(rest);
      var rset := RequestedIds(rest) - failing;
      DeleteRowsHead(t, rows, failing);
      if Find(t.rows, i).Some? && i !in failing {
        DeleteRowsEffect(Table(Without(t.rows, {i}), t.nextId), rest, failing);
        WithoutTwice(t.rows, {i}, rset);
        assert {i} + rset == RequestedIds(rows) - failing;
      } else {
        DeleteRowsEffect(t, rest, failing);
        if i !in failing {
          WithoutAbsent(t.rows, rset, i);
          assert RequestedIds(rows) - failing == rset + {i};
        } else {
          assert RequestedIds(rows) - failing == rset;
        }
      }
    }
  }

  /** One turn of the `delete` loop for a row with an integer id: the row is
      removed when the table has it and its delete does not fail. */
  lemma DeleteRowsHead(t: Table, rows: seq<Record>, failing: set<int>)
    requires |rows| > 0 && "id" in rows[0] && rows[0]["id"].Int?
    ensures var i := rows[0]["id"].i;
            DeleteRows(t, rows, failing)
            == DeleteRows(if Find(t.rows, i).Some? && i !in failing then Table(Without(t.rows, {i}), t.nextId) else t,
                          rows[1..], failing)
  {
  }

  lemma {:induction false} WithoutNone(rows: seq<StoredRow>)
    ensures Without(rows, {}) == rows
    decreases |rows|
  {
    if |rows| > 0 {
      WithoutNone(rows[1..]);
    }
  }

  /** A batch holding a row without an `id` commits nothing. */
  lemma {:induction false} DeleteRowsAborts(t: Table, rows: seq<Record>, failing: set<int>, k: nat)
    requires k < |rows| && "id" !in rows[k]
    ensures DeleteRows(t, rows, failing).Err?
    decreases |rows|
  {
    if k > 0 && "id" in rows[0] {
      assert rows[1..][k - 1] == rows[k];
      var row := rows[0];
      var t1 := if RowFor(t, row["id"]).Ok? && RowFor(t, row["id"]).value.id !in failing
                then Table(Without(t.rows, {RowFor(t, row["id"]).value.id}), t.nextId) else t;
      DeleteRowsAborts(t1, rows[1..], failing, k - 1);
    }
  }

  /** Deleting keeps a well-formed table well formed. */
  lemma {:induction false} WithoutWellFormed(t: Table, ids: set<int>)
    requires WellFormed(t)
    ensures WellFormed(Table(Without(t.rows, ids), t.nextId))
    decreases |t.rows|
  {
    var rows := t.rows;
    var r := Without(rows, ids);
    forall k | 0 <= k < |r|
      ensures r[k].id < t.nextId
    {
      assert r[k] in rows;
    }
    if |rows| > 0 {
      TailWellFormed(t);
      WithoutWellFormed(Table(rows[1..], t.nextId), ids);
      if rows[0].id !in ids {
        HeadNotInTail(t, ids);
        ConsDistinct(rows[0], Without(rows[1..], ids));
        assert r == [rows[0]] + Without(rows[1..], ids);
      }
    }
  }

  /** Dropping the first row keeps a table well formed. */
  lemma TailWellFormed(t: Table)
    requires WellFormed(t) && |t.rows| > 0
    ensures WellFormed(Table(t.rows[1..], t.nextId))
  {
    var rest := t.rows[1..];
    assert forall k :: 0 <= k < |rest| ==> rest[k] == t.rows[k + 1];
  }

  /** In a well-formed table no later row, deleted or not, shares the
      first row's id. */
  lemma HeadNotInTail(t: Table, ids: set<int>)
    requires WellFormed(t) && |t.rows| > 0
    ensures forall k :: 0 <= k < |Without(t.rows[1..], ids)| ==> Without(t.rows[1..], ids)[k].id != t.rows[0].id
  {
    var rest := t.rows[1..];
    var tail := Without(rest, ids);
    forall k | 0 <= k < |tail|
      ensures tail[k].id != t.rows[0].id
    {
      assert tail[k] in rest;
      var m :| 0 <= m < |rest| && rest[m] == tail[k];
      assert rest[m] == t.rows[m + 1];
    }
  }

  /** A row put in front of rows with distinct ids, none of them its own,
      keeps the ids distinct. */
  lemma ConsDistinct(x: StoredRow, tail: seq<StoredRow>)
    requires forall i, j :: 0 <= i < j < |tail| ==> tail[i].id != tail[j].id
    requires forall k :: 0 <= k < |tail| ==> tail[k].id != x.id
    ensures var r := [x] + tail; forall i, j :: 0 <= i < j < |r| ==> r[i].id != r[j].id
  {
    var r := [x] + tail;
    forall i, j | 0 <= i < j < |r|
      ensures r[i].id != r[j].id
    {
      assert r[j] == tail[j - 1];
      if i > 0 {
        assert r[i] == tail[i - 1];
      }
    }
  }

  // ---------------------------------------------------------------------
  // save

  datatype Saved = Saved(table: Table, record: Record)

  /** The attribute `jobman.id` that the store sets on an inserted row. */
  function JobmanIdUpdate(id: int): Record {
    map["jobman" := Dict(map["id" := Int(id)])]
  }

  /** `save`: a row with an `id` is a partial update of that stored row (the
      `id` key itself is not written); a row without one is inserted under a
      fresh id, which is also written to its `jobman.id`. Either way the row
      is read back and returned with `id` set to the stored row's id. */
  function SaveRow(t: Table, row: Record): (r: Result<Saved>)
    ensures r.Ok? ==> "id" in r.value.record && r.value.record["id"].Int?
    ensures r.Ok? ==> r.value.table.nextId == t.nextId + (if "id" in row then 0 else 1)
    ensures r.Ok? ==> |r.value.table.rows| == |t.rows| + (if "id" in row then 0 else 1)
    ensures r.Ok? && "id" in row ==> Numeric(row["id"]).Some?
  {
    var target: Result<Table> :=
      if "id" in row then
        match RowFor(t, row["id"])
        case Err(e) => Err(e)
        case Ok(found) =>
          // the debug message formats the id with `%d`, which raises on `None`
          if Numeric(row["id"]).None? then Err(TypeError)
          else Ok(Table(ApplyUpdate(t.rows, {found.id}, row - {"id"}), t.nextId))
      else
        var attrs := Merge(row, JobmanIdUpdate(t.nextId));
        Ok(Table(t.rows + [StoredRow(t.nextId, attrs)], t.nextId + 1));
    match target
    case Err(e) => Err(e)
    case Ok(t') =>
      var rowId := if "id" in row then RowFor(t, row["id"]).value.id else t.nextId;
      match RowFor(t', Int(rowId))
      case Err(e) => Err(e)
      case Ok(stored) => Ok(Saved(t', stored.attrs["id" := Int(rowId)]))
  }

  lemma {:induction false} FindAppended(rows: seq<StoredRow>, x: StoredRow)
    requires Find(rows, x.id).None?
    ensures Find(rows + [x], x.id) == Some(|rows|)
    decreases |rows|
  {
    if |rows| > 0 {
      assert (rows + [x])[1..] == rows[1..] + [x];
      FindAppended(rows[1..], x);
    }
  }

  /** The row an insert appends. */
  function Inserted(t: Table, row: Record): StoredRow {
    StoredRow(t.nextId, Merge(row, JobmanIdUpdate(t.nextId)))
  }

  lemma SaveInsertResult(t: Table, row: Record)
    requires WellFormed(t) && "id" !in row
    ensures SaveRow(t, row)
            == Ok(Saved(Table(t.rows + [Inserted(t, row)], t.nextId + 1),
                        Inserted(t, row).attrs["id" := Int(t.nextId)]))
  {
    FindAppended(t.rows, Inserted(t, row));
  }

  /** Saving a row without an id appends it under the next id and returns
      it with that id, both as `id` and as `jobman.id`; every other
      attribute is returned as given. */
  lemma SaveInserts(t: Table, row: Record)
    requires WellFormed(t) && "id" !in row
    ensures var r := SaveRow(t, row);
            r.Ok? && r.value.table.rows == t.rows + [Inserted(t, row)]
            && r.value.record["id"] == Int(t.nextId)
            && PathLookup(r.value.record, ["jobman", "id"]) == Some(Int(t.nextId))
            && (forall k :: k in row && k != "jobman" ==> r.value.record[k] == row[k])
            && WellFormed(r.value.table)
  {
    SaveInsertResult(t, row);
    var attrs := Inserted(t, row).attrs;
    MergeCovers(row, JobmanIdUpdate(t.nextId));
    assert PathLookup(attrs["id" := Int(t.nextId)], ["jobman", "id"]) == Some(Int(t.nextId)) by {
      assert ["jobman", "id"][1..] == ["id"];
    }
  }

  /** Saving a row whose id is stored updates that row alone, leaves the
      `id` key out of the update, and returns the stored row with the same
      id and every value the update set. */
  lemma SaveUpdates(t: Table, row: Record, i: int)
    requires WellFormed(t) && "id" in row && row["id"] == Int(i) && Find(t.rows, i).Some?
    ensures var r := SaveRow(t, row);
            r.Ok? && r.value.table == Table(ApplyUpdate(t.rows, {i}, row - {"id"}), t.nextId)
            && r.value.record["id"] == Int(i)
            && Covers(r.value.record - {"id"}, row - {"id"})
            && WellFormed(r.value.table)
  {
    var k := Find(t.rows, i).value;
    var t' := Table(ApplyUpdate(t.rows, {i}, row - {"id"}), t.nextId);
    SameIdsFind(t.rows, t'.rows, i);
    var merged := Merge(t.rows[k].attrs, row - {"id"});
    assert t'.rows[k].attrs == merged;
    MergeCovers(t.rows[k].attrs, row - {"id"});
    assert merged["id" := Int(i)] - {"id"} == merged - {"id"};
    CoversWithout(merged, row - {"id"}, "id");
  }

  /** Dropping a key the update does not set keeps the update covered. */
  lemma CoversWithout(r: Record, u: Record, key: string)
    requires Covers(r, u) && key !in u
    ensures Covers(r - {key}, u)
  {
    forall k | k in u
      ensures (r - {key})[k] == r[k]
    {
    }
  }

  /** Saving a row whose integer id is not stored raises `ValueError`. */
  lemma SaveMissing(t: Table, row: Record, i: int)
    requires "id" in row && row["id"] == Int(i) && Find(t.rows, i).None?
    ensures SaveRow(t, row) == Err(ValueError)
  {
  }

  /** Saving a row whose id is not a number raises: `None` loads the first
      row, or raises `IndexError` on an empty table, and then the `%d` of
      the debug message raises `TypeError`; any other id raises
      `TypeError` in the lookup. Nothing is written either way. */
  lemma SaveNonNumericId(t: Table, row: Record)
    requires "id" in row && Numeric(row["id"]).None?
    ensures SaveRow(t, row) == Err(if row["id"].VNone? && |t.rows| == 0 then IndexError else TypeError)
  {
  }

  // ---------------------------------------------------------------------
  // load

  /** Every dotted key of the filter addresses an equal attribute. */
  predicate Matches(attrs: Record, filter: Record) {
    forall k | k in filter :: Dotted(attrs, k) == Some(filter[k])
  }

  function MatchTest(filter: Record): StoredRow -> bool {
    (row: StoredRow) => Matches(row.attrs, filter)
  }

  /** The query of `_load_in_safe_session`: one row by id, the rows equal to
      a filter, or every row. */
  function LoadRows(t: Table, filter: Option<Record>, rowId: Value): (r: Result<seq<StoredRow>>)
    ensures rowId.Int? ==> (r.Ok? <==> Find(t.rows, rowId.i).Some?)
    ensures rowId.Int? && r.Err? ==> r.error == ValueError
    ensures rowId.Int? && r.Ok? ==> |r.value| == 1 && r.value[0].id == rowId.i
    ensures rowId.VNone? ==> r.Ok?
  {
    if !rowId.VNone? then
      match RowFor(t, rowId)
      case Err(e) => Err(e)
      case Ok(row) => Ok([row])
    else match filter
      case Some(f) => Ok(Seqs.Filter(t.rows, MatchTest(f)))
      case None => Ok(t.rows)
  }

  /** A loaded row as returned by `load`: its attributes with `id` set from
      `jobman.id`. A row without `jobman.id` is where the code attempts a
      repair; the model reports the `KeyError` instead. */
  function Eager(row: StoredRow): (r: Result<Record>)
    ensures r.Ok? ==> "id" in r.value && PathLookup(r.value, ["jobman", "id"]) == Some(r.value["id"])
    ensures r.Ok? ==> r.value - {"id"} == row.attrs - {"id"}
    ensures r.Ok? <==> PathLookup(row.attrs, ["jobman", "id"]).Some?
  {
    match Get(row.attrs, "jobman")
    case Err(e) => Err(e)
    case Ok(j) =>
      match Field(j, "id")
      case Err(e) => Err(e)
      case Ok(v) =>
        var rec := row.attrs["id" := v];
        assert PathLookup(rec, ["jobman", "id"]) == Some(v) by {
          assert ["jobman", "id"][1..] == ["id"];
        }
        assert PathLookup(row.attrs, ["jobman", "id"]) == Some(v) by {
          assert ["jobman", "id"][1..] == ["id"];
        }
        Ok(rec)
  }

  function EagerAll(rows: seq<StoredRow>): (r: Result<seq<Record>>)
    ensures r.Ok? ==> |r.value| == |rows|
    ensures r.Ok? ==> forall k :: 0 <= k < |rows| ==> Eager(rows[k]) == Ok(r.value[k])
    ensures r.Ok? <==> forall k :: 0 <= k < |rows| ==> Eager(rows[k]).Ok?
    decreases |rows|
  {
    if |rows| == 0 then Ok([])
    else
      match Eager(rows[0])
      case Err(e) => Err(e)
      case Ok(first) =>
        match EagerAll(rows[1..])
        case Err(e) =>
          assert exists k :: 0 < k < |rows| && Eager(rows[k]).Err? by {
            var k :| 0 <= k < |rows[1..]| && Eager(rows[1..][k]).Err?;
            assert rows[1..][k] == rows[k + 1];
          }
          Err(e)
        case Ok(others) =>
          assert forall k :: 0 < k < |rows| ==> rows[k] == rows[1..][k - 1];
          Ok([first] + others)
  }

  // ---------------------------------------------------------------------
  // the facade: each operation opens (or reuses) the table's handle, runs in
  // one session, and commits only when nothing escaped

  datatype Step<T> = Step(result: Result<T>, db: Db)

  function WithTable(db: Db, name: string, t: Table): Db {
    db.(tables := db.tables[name := t])
  }

  /** `Database.update`. */
  function Update(db: Db, name: string, rows: seq<Record>, upd: Record, failing: set<int>): (s: Step<()>)
    ensures s.result.Err? ==> s.db.tables == db.tables
    ensures forall n :: n != name ==> TableOf(s.db, n) == TableOf(db, n)
    ensures s.result.Ok? ==> UpdateRows(TableOf(db, name), rows, upd, failing) == Ok(TableOf(s.db, name))
  {
    match OpenDb(db, name)
    case Err(e) => Step(Err(e), db)
    case Ok(o) =>
      match UpdateRows(TableOf(o.db, name), rows, upd, failing)
      case Err(e) => Step(Err(e), o.db)
      case Ok(t) => Step(Ok(()), WithTable(o.db, name, t))
  }

  /** `Database.delete`. */
  function Delete(db: Db, name: string, rows: seq<Record>, failing: set<int>): (s: Step<()>)
    ensures s.result.Err? ==> s.db.tables == db.tables
    ensures forall n :: n != name ==> TableOf(s.db, n) == TableOf(db, n)
    ensures s.result.Ok? ==> DeleteRows(TableOf(db, name), rows, failing) == Ok(TableOf(s.db, name))
  {
    match OpenDb(db, name)
    case Err(e) => Step(Err(e), db)
    case Ok(o) =>
      match DeleteRows(TableOf(o.db, name), rows, failing)
      case Err(e) => Step(Err(e), o.db)
      case Ok(t) => Step(Ok(()), WithTable(o.db, name, t))
  }

  /** `Database.save`. */
  function Save(db: Db, name: string, row: Record): (s: Step<Record>)
    ensures s.result.Err? ==> s.db.tables == db.tables
    ensures forall n :: n != name ==> TableOf(s.db, n) == TableOf(db, n)
    ensures s.result.Ok? ==> SaveRow(TableOf(db, name), row) == Ok(Saved(TableOf(s.db, name), s.result.value))
  {
    match OpenDb(db, name)
    case Err(e) => Step(Err(e), db)
    case Ok(o) =>
      match SaveRow(TableOf(o.db, name), row)
      case Err(e) => Step(Err(e), o.db)
      case Ok(saved) => Step(Ok(saved.record), WithTable(o.db, name, saved.table))
  }

  /** `Database.load`. */
  function Load(db: Db, name: string, filter: Option<Record>, rowId: Value): (s: Step<seq<Record>>)
    ensures s.db.tables == db.tables
    ensures s.result.Ok? ==> exists rows :: LoadRows(TableOf(db, name), filter, rowId) == Ok(rows) && EagerAll(rows) == s.result
  {
    match OpenDb(db, name)
    case Err(e) => Step(Err(e), db)
    case Ok(o) =>
      match LoadRows(TableOf(o.db, name), filter, rowId)
      case Err(e) => Step(Err(e), o.db)
      case Ok(rows) => Step(EagerAll(rows), o.db)
  }

  /** Loading by an integer id the table lacks raises `ValueError`. */
  lemma LoadMissing(db: Db, name: string, filter: Option<Record>, i: int)
    requires OpenDb(db, name).Ok? && Find(TableOf(db, name).rows, i).None?
    ensures Load(db, name, filter, Int(i)).result == Err(ValueError)
  {
  }

  /** Loading with a filter and no id returns, in store order, the loaded
      form of exactly the rows whose attributes match the filter. */
  lemma LoadFiltered(db: Db, name: string, f: Record)
    requires OpenDb(db, name).Ok?
    requires forall k :: 0 <= k < |TableOf(db, name).rows| ==> Eager(TableOf(db, name).rows[k]).Ok?
    ensures var s := Load(db, name, Some(f), VNone);
            var kept := Seqs.Filter(TableOf(db, name).rows, MatchTest(f));
            s.result.Ok? && |s.result.value| == |kept|
            && forall k :: 0 <= k < |kept| ==> Matches(kept[k].attrs, f) && Eager(kept[k]) == Ok(s.result.value[k])
  {
    var rows := TableOf(db, name).rows;
    var kept := Seqs.Filter(rows, MatchTest(f));
    forall k | 0 <= k < |kept|
      ensures Eager(kept[k]).Ok?
    {
      assert kept[k] in rows;
    }
  }
}
