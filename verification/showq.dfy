/** The parser of `distributed_jobman/parsers/showq.py` for the output of
    the scheduler's `showq`: the listing has sections headed `ACTIVE JOBS`,
    `IDLE JOBS` and `BLOCKED JOBS` (possibly framed by dashes); after each
    header come two rows of column titles, then one row per job up to a
    blank row. Every job row starts with the job's numeric id and, for an
    array element, holds the element's index in brackets. */
module Showq {
  import opened Wrappers
  import opened Values
  import Text

  // ---------------------------------------------------------------------
  // one row

  /** The index in `[digits]` at position `i` of `s`, if one starts there. */
  function BracketAt(s: string, i: nat): (r: Option<string>)
    requires i < |s|
    ensures r.Some? ==> Text.AllDigits(r.value)
  {
    if s[i] != '[' then None
    else
      var d := Text.LeadingDigits(s[i + 1..]);
      if i + 1 + |d| < |s| && s[i + 1 + |d|] == ']' then Some(d) else None
  }

  /** The first match of the regular expression `\[[0-9]*\]` at or after
      position `i`, with its brackets stripped. */
  function ArrayIndexFrom(s: string, i: nat): (r: Option<string>)
    requires i <= |s|
    ensures r.Some? ==> Text.AllDigits(r.value)
    ensures (forall k :: i <= k < |s| ==> s[k] != '[') ==> r.None?
    decreases |s| - i
  {
    if i == |s| then None
    else if BracketAt(s, i).Some? then BracketAt(s, i)
    else ArrayIndexFrom(s, i + 1)
  }

  /** The index of an array element: the digits between the first
      brackets that enclose only digits. */
  function ArrayIndex(s: string): (r: Option<string>)
    ensures r.Some? ==> Text.AllDigits(r.value)
    ensures '[' !in s ==> r.None?
  {
    ArrayIndexFrom(s, 0)
  }

  /** Before the first '[' nothing matches. */
  lemma {:induction false} ArrayIndexSkips(s: string, i: nat, j: nat)
    requires i <= j <= |s| && forall k :: i <= k < j ==> s[k] != '['
    ensures ArrayIndexFrom(s, i) == ArrayIndexFrom(s, j)
    decreases j - i
  {
    if i < j {
      ArrayIndexSkips(s, i + 1, j);
    }
  }

  /** A row `p[d]t` whose `p` has no '[' holds the array index `d`. */
  lemma ArrayIndexOf(p: string, d: string, t: string)
    requires '[' !in p && Text.AllDigits(d)
    ensures ArrayIndex(p + "[" + d + "]" + t) == Some(d)
  {
    var s := p + "[" + d + "]" + t;
    ArrayIndexSkips(s, 0, |p|);
    assert s[|p|] == '[';
    assert s[|p| + 1..] == d + ("]" + t);
    LeadingDigitsOf(d, "]" + t);
    assert s[|p| + 1 + |d|] == ']';
    assert BracketAt(s, |p|) == Some(d);
  }

  /** The leading digits of `d + t` are `d` when `t` does not start with a
      digit. */
  lemma LeadingDigitsOf(d: string, t: string)
    requires Text.AllDigits(d) && (|t| > 0 ==> !Text.IsDigit(t[0]))
    ensures Text.LeadingDigits(d + t) == d
  {
    var r := Text.LeadingDigits(d + t);
    assert r == (d + t)[..|r|];
    assert (d + t)[..|d|] == d;
  }

  /** What `_fetch_ids` records for one row: the row's leading id and its
      array index, the text between the brackets or the integer 0 for a
      row without one. A row without a leading digit fails `int()`. */
  function RowEntry(row: string): (r: Result<(int, Value)>)
    ensures r.Ok? <==> |row| > 0 && Text.IsDigit(row[0])
    ensures r.Err? ==> r.error == ValueError
    ensures r.Ok? ==> r.value.0 == Text.DigitsValue(Text.LeadingDigits(row))
    ensures r.Ok? ==> match ArrayIndex(row)
                      case Some(d) => r.value.1 == Str(d)
                      case None => r.value.1 == Int(0)
  {
    var digits := Text.LeadingDigits(row);
    if digits == "" then Err(ValueError)
    else
      var index := match ArrayIndex(row) case Some(d) => Str(d) case None => Int(0);
      Ok((Text.DigitsValue(digits), index))
  }

  // ---------------------------------------------------------------------
  // ids and their indices

  /** The `defaultdict(set)` of indices per id. */
  type Ids = map<int, set<Value>>

  /** `row_ids[id].add(index)`. */
  function Add(ids: Ids, entry: (int, Value)): (r: Ids)
    ensures r.Keys == ids.Keys + {entry.0}
    ensures entry.1 in r[entry.0]
    ensures forall id | id in ids :: ids[id] <= r[id]
  {
    ids[entry.0 := (if entry.0 in ids then ids[entry.0] else {}) + {entry.1}]
  }

  /** The (id, index) pairs a map holds. */
  function Pairs(ids: Ids): set<(int, Value)> {
    set id, x | id in ids && x in ids[id] :: (id, x)
  }

  /** Adding a pair again changes nothing. */
  lemma AddTwice(ids: Ids, entry: (int, Value))
    ensures Add(Add(ids, entry), entry) == Add(ids, entry)
  {
    var r := Add(ids, entry);
    assert r[entry.0] + {entry.1} == r[entry.0];
    assert Add(r, entry) == r[entry.0 := r[entry.0]];
    assert r[entry.0 := r[entry.0]] == r;
  }

  /** Adding a pair adds exactly that pair. */
  lemma AddPairs(ids: Ids, entry: (int, Value))
    ensures Pairs(Add(ids, entry)) == Pairs(ids) + {entry}
  {
    var r := Add(ids, entry);
    forall p | p in Pairs(r)
      ensures p in Pairs(ids) + {entry}
    {
      var id, x :| id in r && x in r[id] && p == (id, x);
    }
    forall p | p in Pairs(ids) + {entry}
      ensures p in Pairs(r)
    {
      if p in Pairs(ids) {
        var id, x :| id in ids && x in ids[id] && p == (id, x);
        InPairs(r, id, x);
      } else {
        assert p == (entry.0, entry.1);
        InPairs(r, entry.0, entry.1);
      }
    }
  }

  lemma InPairs(ids: Ids, id: int, x: Value)
    requires id in ids && x in ids[id]
    ensures (id, x) in Pairs(ids)
  {
  }

  /** `_fetch_ids`: the rows in order, each adding its entry; the first row
      without a leading id aborts the loop. */
  function FetchIds(rows: seq<string>, ids: Ids): (r: Result<Ids>)
    ensures r.Ok? <==> forall k :: 0 <= k < |rows| ==> RowEntry(rows[k]).Ok?
    ensures r.Err? ==> r.error == ValueError
    ensures r.Ok? ==> r.value.Keys >= ids.Keys
    decreases |rows|
  {
    if |rows| == 0 then Ok(ids)
    else
      var entry :- RowEntry(rows[0]);
      match FetchIds(rows[1..], Add(ids, entry))
      case Err(e) =>
        assert exists k :: 0 < k < |rows| && RowEntry(rows[k]).Err? by {
          var k :| 0 <= k < |rows[1..]| && RowEntry(rows[1..][k]).Err?;
          assert rows[1..][k] == rows[k + 1];
        }
        Err(e)
      case Ok(r) =>
        assert forall k :: 0 < k < |rows| ==> rows[k] == rows[1..][k - 1];
        Ok(r)
  }

  /** The entries of rows that all have a leading id. */
  function Entries(rows: seq<string>): set<(int, Value)>
    requires forall k :: 0 <= k < |rows| ==> RowEntry(rows[k]).Ok?
  {
    set k | 0 <= k < |rows| :: RowEntry(rows[k]).value
  }

  /** Fetching adds exactly the rows' entries: every row's (id, index) is
      recorded, nothing else is, and a repeated pair is recorded once. */
  lemma {:induction false} FetchIdsPairs(rows: seq<string>, ids: Ids)
    requires FetchIds(rows, ids).Ok?
    ensures Pairs(FetchIds(rows, ids).value) == Pairs(ids) + Entries(rows)
    decreases |rows|
  {
    if |rows| > 0 {
      var entry := RowEntry(rows[0]).value;
      FetchIdsPairs(rows[1..], Add(ids, entry));
      AddPairs(ids, entry);
      EntriesCons(rows);
    }
  }

  lemma EntriesCons(rows: seq<string>)
    requires |rows| > 0 && forall k :: 0 <= k < |rows| ==> RowEntry(rows[k]).Ok?
    ensures Entries(rows) == {RowEntry(rows[0]).value} + Entries(rows[1..])
  {
    var tail := rows[1..];
    forall p | p in Entries(rows)
      ensures p in {RowEntry(rows[0]).value} + Entries(tail)
    {
      var k :| 0 <= k < |rows| && p == RowEntry(rows[k]).value;
      if k > 0 {
        assert rows[k] == tail[k - 1];
      }
    }
    forall p | p in Entries(tail)
      ensures p in Entries(rows)
    {
      var k :| 0 <= k < |tail| && p == RowEntry(tail[k]).value;
      assert tail[k] == rows[k + 1];
    }
  }

  // ---------------------------------------------------------------------
  // sections

  const Categories: seq<string> := ["ACTIVE JOBS", "IDLE JOBS", "BLOCKED JOBS"]

  /** A section header, once stripped of the dashes around it. */
  predicate Header(row: string) {
    Text.StripBy(row, {'-'}) in Categories
  }

  predicate Blank(row: string) {
    Text.Strip(row) == ""
  }

  /** A row of the listing with the two tests the scan makes of it. */
  datatype Row = Row(text: string, header: bool, blank: bool)

  function Classify(lines: seq<string>): (rows: seq<Row>)
    ensures |rows| == |lines|
    ensures forall k :: 0 <= k < |lines| ==> rows[k] == Row(lines[k], Header(lines[k]), Blank(lines[k]))
  {
    seq(|lines|, k requires 0 <= k < |lines| => Row(lines[k], Header(lines[k]), Blank(lines[k])))
  }

  function Texts(rows: seq<Row>): (lines: seq<string>)
    ensures |lines| == |rows| && forall k :: 0 <= k < |rows| ==> lines[k] == rows[k].text
  {
    seq(|rows|, k requires 0 <= k < |rows| => rows[k].text)
  }

  /** The first blank row at or after `j`; running off the listing is the
      `IndexError` of `rows[row_j]`. */
  function SectionEnd(rows: seq<Row>, j: nat): (r: Result<nat>)
    ensures r.Ok? ==> j <= r.value < |rows| && rows[r.value].blank
    ensures r.Ok? ==> forall k :: j <= k < r.value ==> !rows[k].blank
    ensures r.Err? <==> forall k :: j <= k < |rows| ==> !rows[k].blank
    ensures r.Err? ==> r.error == IndexError
    decreases |rows| - j
  {
    if j >= |rows| then Err(IndexError)
    else if rows[j].blank then Ok(j)
    else SectionEnd(rows, j + 1)
  }

  /** The scan of `parse_showq` from row `i`: a header makes it skip
      itself and the two title rows, then fetch up to the next blank row,
      where it resumes; any other row is passed over. Each step moves
      forward. */
  function Scan(rows: seq<Row>, i: nat, ids: Ids): (r: Result<Ids>)
    ensures r.Ok? ==> r.value.Keys >= ids.Keys
    decreases |rows| - i
  {
    if i >= |rows| then Ok(ids)
    else if rows[i].header then
      var e :- SectionEnd(rows, i + 3);
      var fetched :- FetchIds(Texts(rows[i + 3..e]), ids);
      Scan(rows, e, fetched)
    else Scan(rows, i + 1, ids)
  }

  /** `parse_showq`. */
  function ParseShowq(text: string): (r: Result<Ids>)
    ensures r.Ok? ==> forall id | id in r.value :: r.value[id] != {}
  {
    var rows := Classify(Text.Split(text, "\n"));
    ScanNonEmpty(rows, 0, map[]);
    Scan(rows, 0, map[])
  }

  /** Every id the scan records has at least one index. */
  lemma {:induction false} ScanNonEmpty(rows: seq<Row>, i: nat, ids: Ids)
    requires forall id | id in ids :: ids[id] != {}
    ensures Scan(rows, i, ids).Ok? ==> forall id | id in Scan(rows, i, ids).value :: Scan(rows, i, ids).value[id] != {}
    decreases |rows| - i
  {
    if i < |rows| && Scan(rows, i, ids).Ok? {
      if rows[i].header {
        var e := SectionEnd(rows, i + 3).value;
        var section := Texts(rows[i + 3..e]);
        FetchNonEmpty(section, ids);
        ScanNonEmpty(rows, e, FetchIds(section, ids).value);
      } else {
        ScanNonEmpty(rows, i + 1, ids);
      }
    }
  }

  lemma {:induction false} FetchNonEmpty(rows: seq<string>, ids: Ids)
    requires forall id | id in ids :: ids[id] != {}
    requires FetchIds(rows, ids).Ok?
    ensures forall id | id in FetchIds(rows, ids).value :: FetchIds(rows, ids).value[id] != {}
    decreases |rows|
  {
    if |rows| > 0 {
      var entry := RowEntry(rows[0]).value;
      FetchNonEmpty(rows[1..], Add(ids, entry));
    }
  }

  /** Rows that are not headers are passed over. */
  lemma {:induction false} ScanPlain(rows: seq<Row>, i: nat, k: nat, ids: Ids)
    requires i <= k <= |rows| && forall m :: i <= m < k ==> !rows[m].header
    ensures Scan(rows, i, ids) == Scan(rows, k, ids)
    decreases k - i
  {
    if i < k {
      ScanPlain(rows, i + 1, k, ids);
    }
  }

  /** A blank row is never a header. */
  lemma BlankNotHeader(row: string)
    requires Blank(row)
    ensures !Header(row)
  {
    var r := Text.StripBy(row, {'-'});
    if r in Categories {
      HeaderStart(r);
      StripByFrom(row, {'-'});
      AllBlank(row, r[0]);
      assert false;
    }
  }

  /** Every header starts with a capital that is not a blank. */
  lemma HeaderStart(r: string)
    requires r in Categories
    ensures |r| > 0 && r[0] !in Text.Blanks
  {
  }

  /** What a strip leaves is taken from the string. */
  lemma StripByFrom(s: string, chars: set<char>)
    ensures |Text.StripBy(s, chars)| > 0 ==> Text.StripBy(s, chars)[0] in s
  {
    var r := Text.StripBy(s, chars);
    if |r| > 0 {
      var a := |s| - |Text.LStrip(s, chars)|;
      Text.LStripShape(s, chars);
      assert r[0] == s[a];
    }
  }

  /** A blank row is made of blanks only. */
  lemma AllBlank(row: string, c: char)
    requires Blank(row) && c in row
    ensures c in Text.Blanks
  {
    Text.StripByEnds(row, Text.Blanks);
  }

  /** Rows whose two tests agree with each other: a blank row is not a
      header. */
  predicate Consistent(rows: seq<Row>) {
    forall k :: 0 <= k < |rows| && rows[k].blank ==> !rows[k].header
  }

  /** Classified lines are consistent. */
  lemma ClassifyConsistent(lines: seq<string>)
    ensures Consistent(Classify(lines))
  {
    var rows := Classify(lines);
    forall k | 0 <= k < |rows| && rows[k].blank
      ensures !rows[k].header
    {
      BlankNotHeader(lines[k]);
    }
  }

  /** A listing without headers records nothing. */
  lemma NoSections(rows: seq<Row>)
    requires forall m :: 0 <= m < |rows| ==> !rows[m].header
    ensures Scan(rows, 0, map[]) == Ok(map[])
  {
    ScanPlain(rows, 0, |rows|, map[]);
    ScanEnd(rows, map[]);
  }

  /** With one section, headed at row `h` and closed by the blank row `e`,
      exactly the rows from three after the header (past the two title
      rows) up to `e` are fetched. */
  lemma OneSection(rows: seq<Row>, h: nat, e: nat)
    requires Consistent(rows)
    requires h < |rows| && rows[h].header && forall m :: 0 <= m < h ==> !rows[m].header
    requires h + 3 <= e < |rows| && rows[e].blank && forall m :: h + 3 <= m < e ==> !rows[m].blank
    requires forall m :: e < m < |rows| ==> !rows[m].header
    ensures Scan(rows, 0, map[]) == FetchIds(Texts(rows[h + 3..e]), map[])
  {
    ScanPlain(rows, 0, h, map[]);
    LastSection(rows, h, e, map[]);
  }

  /** From the header of the last section, the scan records what fetching
      that section records. */
  lemma LastSection(rows: seq<Row>, h: nat, e: nat, ids: Ids)
    requires h < |rows| && rows[h].header
    requires h + 3 <= e < |rows| && rows[e].blank && forall m :: h + 3 <= m < e ==> !rows[m].blank
    requires forall m :: e <= m < |rows| ==> !rows[m].header
    ensures Scan(rows, h, ids) == FetchIds(Texts(rows[h + 3..e]), ids)
  {
    SectionEndAt(rows, h + 3, e);
    var section := Texts(rows[h + 3..e]);
    ScanSection(rows, h, e, section, ids);
    match FetchIds(section, ids)
    case Err(x) =>
    case Ok(fetched) =>
      ScanPlain(rows, e, |rows|, fetched);
      ScanEnd(rows, fetched);
  }

  /** At a header whose section ends at `e`, the scan fetches the section
      and resumes at `e`. */
  lemma ScanSection(rows: seq<Row>, h: nat, e: nat, section: seq<string>, ids: Ids)
    requires h < |rows| && rows[h].header && SectionEnd(rows, h + 3) == Ok(e)
    requires section == Texts(rows[h + 3..e])
    ensures FetchIds(section, ids).Err? ==> Scan(rows, h, ids) == FetchIds(section, ids)
    ensures FetchIds(section, ids).Ok? ==> Scan(rows, h, ids) == Scan(rows, e, FetchIds(section, ids).value)
  {
  }

  lemma ScanEnd(rows: seq<Row>, ids: Ids)
    ensures Scan(rows, |rows|, ids) == Ok(ids)
  {
  }

  lemma {:induction false} SectionEndAt(rows: seq<Row>, j: nat, e: nat)
    requires j <= e < |rows| && rows[e].blank && forall m :: j <= m < e ==> !rows[m].blank
    ensures SectionEnd(rows, j) == Ok(e)
    decreases e - j
  {
    if j < e {
      SectionEndAt(rows, j + 1, e);
    }
  }

  // ---------------------------------------------------------------------
  // what a whole listing records

  /** The sections of the listing from row `i` on, each as the rows read
      for it: from three rows after a header up to the first blank row.
      A header with no blank row after it is the `IndexError`. */
  function Sections(rows: seq<Row>, i: nat): (r: Result<seq<seq<string>>>)
    ensures r.Err? ==> r.error == IndexError
    decreases |rows| - i
  {
    if i >= |rows| then Ok([])
    else if rows[i].header then
      var e :- SectionEnd(rows, i + 3);
      var rest :- Sections(rows, e);
      Ok([Texts(rows[i + 3..e])] + rest)
    else Sections(rows, i + 1)
  }

  /** Every row of every section has a leading id. */
  predicate AllParse(sections: seq<seq<string>>) {
    forall j, k :: 0 <= j < |sections| && 0 <= k < |sections[j]| ==> RowEntry(sections[j][k]).Ok?
  }

  /** The entries of all the sections together. */
  function AllEntries(sections: seq<seq<string>>): set<(int, Value)>
    requires AllParse(sections)
    decreases |sections|
  {
    if |sections| == 0 then {}
    else
      assert forall j :: 0 < j < |sections| ==> sections[1..][j - 1] == sections[j];
      Entries(sections[0]) + AllEntries(sections[1..])
  }

  /** A section in front of others: all parse exactly when it and the
      others do, and the entries add up. */
  lemma AllCons(section: seq<string>, rest: seq<seq<string>>)
    ensures AllParse([section] + rest)
            <==> (forall k :: 0 <= k < |section| ==> RowEntry(section[k]).Ok?) && AllParse(rest)
    ensures AllParse([section] + rest) ==> AllEntries([section] + rest) == Entries(section) + AllEntries(rest)
  {
    var all := [section] + rest;
    assert all[0] == section && all[1..] == rest;
    assert forall j :: 0 < j < |all| ==> all[j] == rest[j - 1];
  }

  /** The scan from row `i` succeeds exactly when the sections from there
      are all terminated and all their rows have an id, and it adds
      exactly the sections' entries. */
  lemma {:induction false} ScanSections(rows: seq<Row>, i: nat, ids: Ids)
    ensures Scan(rows, i, ids).Ok? <==> Sections(rows, i).Ok? && AllParse(Sections(rows, i).value)
    ensures Scan(rows, i, ids).Ok? ==>
              Pairs(Scan(rows, i, ids).value) == Pairs(ids) + AllEntries(Sections(rows, i).value)
    decreases |rows| - i
  {
    if i >= |rows| {
      assert Sections(rows, i) == Ok([]);
    } else if !rows[i].header {
      ScanSections(rows, i + 1, ids);
    } else {
      if SectionEnd(rows, i + 3).Ok? {
        var e := SectionEnd(rows, i + 3).value;
        var section := Texts(rows[i + 3..e]);
        ScanSection(rows, i, e, section, ids);
        if FetchIds(section, ids).Ok? {
          ScanSections(rows, e, FetchIds(section, ids).value);
        }
        if Sections(rows, e).Ok? {
          var rest := Sections(rows, e).value;
          assert Sections(rows, i) == Ok([section] + rest);
          AllCons(section, rest);
          if FetchIds(section, ids).Ok? && Scan(rows, e, FetchIds(section, ids).value).Ok? {
            FetchIdsPairs(section, ids);
          }
        }
      }
    }
  }

  /** `parse_showq` on a whole listing: it succeeds exactly when every
      section is closed by a blank row and every row of every section has
      a leading id, and then it records exactly the (id, index) pairs of
      those rows. */
  lemma ParseShowqSections(text: string)
    ensures var sections := Sections(Classify(Text.Split(text, "\n")), 0);
            ParseShowq(text).Ok? <==> sections.Ok? && AllParse(sections.value)
    ensures var sections := Sections(Classify(Text.Split(text, "\n")), 0);
            ParseShowq(text).Ok? ==> Pairs(ParseShowq(text).value) == AllEntries(sections.value)
  {
    var rows := Classify(Text.Split(text, "\n"));
    ScanSections(rows, 0, map[]);
    assert Pairs(map[]) == {};
  }

  /** A section that runs to the end of the listing without a blank row
      fails. */
  lemma Unterminated(rows: seq<Row>, h: nat)
    requires h < |rows| && rows[h].header && forall m :: 0 <= m < h ==> !rows[m].header
    requires forall m :: h + 3 <= m < |rows| ==> !rows[m].blank
    ensures Scan(rows, 0, map[]) == Err(IndexError)
  {
    ScanPlain(rows, 0, h, map[]);
  }
}
