/** The entry table: the CSV file of processed articles, held as a sequence
    of rows in file order over a fixed set of thirteen columns. Reading or
    writing the file can fail; every operation then takes its exception
    path (mutators report `false`, lookups give nothing, statistics give
    no record). */
module Database {
  import opened Common

  /** A cell: missing (`NaN`/`None`), a string, or a boolean flag. */
  datatype Value = Null | Str(s: string) | Bool(b: bool)

  type Row = map<string, Value>

  /** `self.columns`, in file order. */
  function Columns(): seq<string> {
    ["pmid", "filename", "extraction_status", "txt_available", "pdf_available",
     "original_reference", "extracted_title", "found_title", "first_author",
     "journal", "year", "doi", "created_at"]
  }

  /** The columns as a set: the keys of every row. Written out as a set
      display, which the membership proofs below need, and tied to
      `Columns` by `ColumnSetOfColumns`. */
  function ColumnSet(): set<string> {
    {"pmid", "filename", "extraction_status", "txt_available", "pdf_available",
     "original_reference", "extracted_title", "found_title", "first_author",
     "journal", "year", "doi", "created_at"}
  }

  lemma ColumnSetOfColumns()
    ensures ColumnSet() == set c | c in Columns()
  {
  }

  /** `.astype(str)` of a cell as read back from the file. */
  function ToStr(v: Value): string {
    match v
    case Null => "nan"
    case Str(s) => s
    case Bool(b) => if b then "True" else "False"
  }

  function Cell(row: Row, col: string): Value {
    if col in row then row[col] else Null
  }

  function PmidOf(row: Row): string {
    ToStr(Cell(row, "pmid"))
  }

  // ---------------------------------------------------------------------
  // add_entry
  // ---------------------------------------------------------------------

  /** What `add_entry` stores in column `col`: the time for `created_at`,
      else the given value or `None`. */
  function ColumnValue(col: string, entryData: map<string, Value>, now: string): Value {
    if col == "created_at" then Str(now)
    else if col in entryData then entryData[col]
    else Null
  }

  /** The new row built column by column over `cols`. */
  function RowOver(cols: seq<string>, entryData: map<string, Value>, now: string): Row
  {
    if cols == [] then map[]
    else
      var last := cols[|cols| - 1];
      RowOver(cols[..|cols| - 1], entryData, now)[last := ColumnValue(last, entryData, now)]
  }

  /** The row `add_entry` stores. */
  function EntryRow(entryData: map<string, Value>, now: string): Row {
    RowOver(Columns(), entryData, now)
  }

  lemma {:induction false} RowOverShape(cols: seq<string>, entryData: map<string, Value>, now: string)
    ensures RowOver(cols, entryData, now).Keys == set c | c in cols
    ensures forall c :: c in cols ==> RowOver(cols, entryData, now)[c] == ColumnValue(c, entryData, now)
  {
    if cols != [] {
      var init := cols[..|cols| - 1];
      RowOverShape(init, entryData, now);
      assert cols == init + [cols[|cols| - 1]];
    }
  }

  /** The stored row has exactly the table's columns: `created_at` is the
      time of the call, any other column holds the given value or `None`,
      and keys outside the columns are dropped. */
  lemma EntryRowShape(entryData: map<string, Value>, now: string)
    ensures EntryRow(entryData, now).Keys == ColumnSet()
    ensures EntryRow(entryData, now)["created_at"] == Str(now)
    ensures forall c :: c in ColumnSet() && c != "created_at" ==>
      EntryRow(entryData, now)[c] == (if c in entryData then entryData[c] else Null)
  {
    RowOverShape(Columns(), entryData, now);
    ColumnSetOfColumns();
  }

  /** The stored row's columns, and nothing else. */
  lemma EntryRowKeys(entryData: map<string, Value>, now: string)
    ensures EntryRow(entryData, now).Keys == ColumnSet()
  {
    EntryRowShape(entryData, now);
  }

  /** One column of the stored row, other than `created_at`. */
  lemma EntryRowCell(entryData: map<string, Value>, now: string, c: string)
    requires c in ColumnSet() && c != "created_at"
    ensures Cell(EntryRow(entryData, now), c) == if c in entryData then entryData[c] else Null
  {
    EntryRowShape(entryData, now);
  }

  // ---------------------------------------------------------------------
  // Lookups
  // ---------------------------------------------------------------------

  /** The index of the first row whose pmid reads back as `pmid`. */
  function FirstWithPmid(rows: seq<Row>, pmid: string): (r: Option<nat>)
    ensures r.Some? ==> r.value < |rows| && PmidOf(rows[r.value]) == pmid
    ensures r.Some? ==> forall k :: 0 <= k < r.value ==> PmidOf(rows[k]) != pmid
    ensures r.None? <==> forall k :: 0 <= k < |rows| ==> PmidOf(rows[k]) != pmid
  {
    if rows == [] then None
    else if PmidOf(rows[0]) == pmid then Some(0)
    else
      var rest := FirstWithPmid(rows[1..], pmid);
      assert forall k :: 1 <= k < |rows| ==> rows[k] == rows[1..][k - 1];
      if rest.None? then None else Some(rest.value + 1)
  }

  /** The row filter of `search_entries` for a lower-cased, non-empty query:
      a substring of the lower-cased titles or author, or of the pmid. */
  predicate RowMatches(row: Row, query: string) {
    Contains(Lower(ToStr(Cell(row, "extracted_title"))), query) ||
    Contains(Lower(ToStr(Cell(row, "found_title"))), query) ||
    Contains(Lower(ToStr(Cell(row, "first_author"))), query) ||
    Contains(ToStr(Cell(row, "pmid")), query)
  }

  function SearchRows(rows: seq<Row>, searchQuery: string): (r: seq<Row>)
  {
    if searchQuery == [] then rows
    else
      var query := Lower(searchQuery);
      Filter(rows, (row: Row) => RowMatches(row, query))
  }

  /** An empty query gives every row; otherwise exactly the matching rows,
      in table order. */
  lemma SearchRowsMeaning(rows: seq<Row>, searchQuery: string)
    ensures searchQuery == [] ==> SearchRows(rows, searchQuery) == rows
    ensures searchQuery != [] ==>
      SearchRows(rows, searchQuery) == Filter(rows, (row: Row) => RowMatches(row, Lower(searchQuery)))
    ensures forall row :: row in SearchRows(rows, searchQuery) <==>
      row in rows && (searchQuery == [] || RowMatches(row, Lower(searchQuery)))
  {
  }

  predicate Succeeded(row: Row) {
    Cell(row, "extraction_status") == Str("success")
  }

  predicate NotSucceeded(row: Row) {
    !Succeeded(row)
  }

  predicate TxtAvailable(row: Row) {
    Cell(row, "txt_available") == Bool(true)
  }

  predicate PdfAvailable(row: Row) {
    Cell(row, "pdf_available") == Bool(true)
  }

  predicate BothAvailable(row: Row) {
    TxtAvailable(row) && PdfAvailable(row)
  }

  predicate EitherAvailable(row: Row) {
    TxtAvailable(row) || PdfAvailable(row)
  }

  /** The counts of `get_statistics`. */
  datatype Stats = Stats(
    totalEntries: nat,
    successfulExtractions: nat,
    failedExtractions: nat,
    txtAvailable: nat,
    pdfAvailable: nat,
    bothAvailable: nat)

  function StatsOf(rows: seq<Row>): Stats {
    Stats(|rows|, |Filter(rows, Succeeded)|, |Filter(rows, NotSucceeded)|,
          |Filter(rows, TxtAvailable)|, |Filter(rows, PdfAvailable)|, |Filter(rows, BothAvailable)|)
  }

  lemma {:induction false} FilterComplement(rows: seq<Row>)
    ensures |Filter(rows, Succeeded)| + |Filter(rows, NotSucceeded)| == |rows|
  {
    if rows != [] {
      FilterComplement(rows[1..]);
    }
  }

  lemma {:induction false} FilterInclusionExclusion(rows: seq<Row>)
    ensures |Filter(rows, TxtAvailable)| + |Filter(rows, PdfAvailable)|
      == |Filter(rows, BothAvailable)| + |Filter(rows, EitherAvailable)|
  {
    if rows != [] {
      FilterInclusionExclusion(rows[1..]);
    }
  }

  lemma {:induction false} BothBounded(rows: seq<Row>)
    ensures |Filter(rows, BothAvailable)| <= |Filter(rows, TxtAvailable)|
    ensures |Filter(rows, BothAvailable)| <= |Filter(rows, PdfAvailable)|
  {
    if rows != [] {
      BothBounded(rows[1..]);
    }
  }

  /** Every entry is either successful or failed, and the both-available
      count is bounded by each single count and by inclusion-exclusion. */
  lemma StatsConsistent(rows: seq<Row>)
    ensures var st := StatsOf(rows);
      st.successfulExtractions + st.failedExtractions == st.totalEntries &&
      st.bothAvailable <= st.txtAvailable && st.bothAvailable <= st.pdfAvailable &&
      st.txtAvailable + st.pdfAvailable - st.bothAvailable <= st.totalEntries
  {
    FilterComplement(rows);
    FilterInclusionExclusion(rows);
    BothBounded(rows);
    assert |Filter(rows, EitherAvailable)| <= |rows|;
  }

  // ---------------------------------------------------------------------
  // update_entry and delete_entry on the rows
  // ---------------------------------------------------------------------

  /** `df.loc[mask, key] = value` for each key of `updateData` that is a
      column of the row. */
  function Patch(row: Row, updateData: map<string, Value>): Row {
    map c | c in row :: if c in updateData then updateData[c] else row[c]
  }

  function UpdatedRow(row: Row, pmid: string, updateData: map<string, Value>): Row {
    if PmidOf(row) == pmid then Patch(row, updateData) else row
  }

  function UpdatedRows(rows: seq<Row>, pmid: string, updateData: map<string, Value>): seq<Row> {
    seq(|rows|, k requires 0 <= k < |rows| => UpdatedRow(rows[k], pmid, updateData))
  }

  /** Updating keeps the number and order of rows and every row's columns,
      leaves rows with another pmid alone, and on a matching row sets
      exactly the given keys that are columns. */
  lemma UpdatedRowsMeaning(rows: seq<Row>, pmid: string, updateData: map<string, Value>)
    ensures var r := UpdatedRows(rows, pmid, updateData);
      |r| == |rows| &&
      (forall k :: 0 <= k < |rows| ==> r[k].Keys == rows[k].Keys) &&
      (forall k :: 0 <= k < |rows| && PmidOf(rows[k]) != pmid ==> r[k] == rows[k]) &&
      (forall k, c :: 0 <= k < |rows| && PmidOf(rows[k]) == pmid && c in rows[k] ==>
         r[k][c] == (if c in updateData then updateData[c] else rows[k][c]))
  {
  }

  predicate OtherPmid(pmid: string, row: Row) {
    PmidOf(row) != pmid
  }

  function Kept(rows: seq<Row>, pmid: string): seq<Row> {
    Filter(rows, (row: Row) => OtherPmid(pmid, row))
  }

  /** Deleting removes every row with the pmid, keeps the others in order,
      and removes something exactly when some row had the pmid. */
  lemma KeptMeaning(rows: seq<Row>, pmid: string)
    ensures forall row :: row in Kept(rows, pmid) <==> row in rows && PmidOf(row) != pmid
    ensures |Kept(rows, pmid)| == |rows| <==> FirstWithPmid(rows, pmid).None?
  {
    FilterKeepsAllIff(rows, (row: Row) => OtherPmid(pmid, row));
  }

  // ---------------------------------------------------------------------
  // The table
  // ---------------------------------------------------------------------

  class DatabaseManager {
    /** The rows of the CSV file, in file order. */
    var rows: seq<Row>
    /** Whether reading or writing the CSV file fails (every call then
        takes its `except` path). */
    const failing: bool

    /** Every row has exactly the table's columns. */
    ghost predicate Valid()
      reads this
    {
      forall k :: 0 <= k < |rows| ==> rows[k].Keys == ColumnSet()
    }

    /** A table whose file has just been created with the header only. */
    constructor (failing: bool)
      ensures Valid() && rows == [] && this.failing == failing
    {
      rows := [];
      this.failing := failing;
    }

    /** The loop of `add_entry` over the columns. */
    method NewEntry(entryData: map<string, Value>, now: string) returns (newEntry: Row)
      ensures newEntry == EntryRow(entryData, now)
    {
      var cols := Columns();
      newEntry := map[];
      for i := 0 to |cols|
        invariant newEntry == RowOver(cols[..i], entryData, now)
      {
        var col := cols[i];
        assert cols[..i + 1][..i] == cols[..i];
        if col == "created_at" {
          newEntry := newEntry[col := Str(now)];
        } else {
          newEntry := newEntry[col := if col in entryData then entryData[col] else Null];
        }
      }
      assert cols[..|cols|] == cols;
    }

    /** `add_entry`: append one row; `now` is the call's
        `datetime.now().isoformat()`. */
    method AddEntry(entryData: map<string, Value>, now: string) returns (ok: bool)
      requires Valid()
      modifies this
      ensures Valid()
      ensures ok == !failing
      ensures rows == if ok then old(rows) + [EntryRow(entryData, now)] else old(rows)
    {
      if failing {
        return false;
      }
      var newEntry := NewEntry(entryData, now);
      EntryRowShape(entryData, now);
      rows := rows + [newEntry];
      ok := true;
    }

    /** `pmid_exists` */
    function PmidExists(pmid: string): (r: bool)
      reads this
      ensures r <==> !failing && pmid != [] && exists k :: 0 <= k < |rows| && PmidOf(rows[k]) == pmid
    {
      !failing && pmid != [] && FirstWithPmid(rows, pmid).Some?
    }

    /** `get_entry_by_pmid` */
    function GetEntryByPmid(pmid: string): (r: Option<Row>)
      reads this
      ensures r.Some? ==> !failing
      ensures r.Some? ==> exists k ::
                            0 <= k < |rows| && r.value == rows[k] && PmidOf(rows[k]) == pmid &&
                            forall j :: 0 <= j < k ==> PmidOf(rows[j]) != pmid
      ensures r.None? <==> failing || forall k :: 0 <= k < |rows| ==> PmidOf(rows[k]) != pmid
    {
      if failing then None
      else
        var k := FirstWithPmid(rows, pmid);
        if k.None? then None else Some(rows[k.value])
    }

    /** `search_entries` */
    function SearchEntries(searchQuery: string): (r: seq<Row>)
      reads this
      ensures failing ==> r == []
      ensures !failing && searchQuery == [] ==> r == rows
      ensures !failing ==> forall row :: row in r <==>
        row in rows && (searchQuery == [] || RowMatches(row, Lower(searchQuery)))
    {
      SearchRowsMeaning(rows, searchQuery);
      if failing then [] else SearchRows(rows, searchQuery)
    }

    /** `get_failed_entries` */
    function GetFailedEntries(): (r: seq<Row>)
      reads this
      ensures failing ==> r == []
      ensures !failing ==> forall row :: row in r <==> row in rows && !Succeeded(row)
    {
      if failing then [] else Filter(rows, NotSucceeded)
    }

    /** `get_all_entries` */
    function GetAllEntries(): (r: seq<Row>)
      reads this
      ensures r == if failing then [] else rows
    {
      SearchEntries("")
    }

    /** `get_statistics`, without the rate; `None` is the empty dictionary
        of the exception path. */
    function GetStatistics(): (r: Option<Stats>)
      reads this
      ensures r.None? <==> failing
      ensures r.Some? ==> (r.value.totalEntries == |rows| &&
        r.value.successfulExtractions + r.value.failedExtractions == r.value.totalEntries &&
        r.value.failedExtractions == |GetFailedEntries()|)
    {
      StatsConsistent(rows);
      if failing then None else Some(StatsOf(rows))
    }

    /** The rewrite of `update_entry`: every row with the pmid patched. */
    method PatchMatching(table: seq<Row>, pmid: string, updateData: map<string, Value>) returns (newRows: seq<Row>)
      ensures newRows == UpdatedRows(table, pmid, updateData)
    {
      newRows := [];
      for i := 0 to |table|
        invariant |newRows| == i
        invariant forall k :: 0 <= k < i ==> newRows[k] == UpdatedRow(table[k], pmid, updateData)
      {
        var row := table[i];
        if PmidOf(row) == pmid {
          row := Patch(row, updateData);
        }
        newRows := newRows + [row];
      }
    }

    /** `update_entry`: set the given columns on every row with the pmid. */
    method UpdateEntry(pmid: string, updateData: map<string, Value>) returns (ok: bool)
      requires Valid()
      modifies this
      ensures Valid()
      ensures ok <==> !failing && FirstWithPmid(old(rows), pmid).Some?
      ensures rows == if ok then UpdatedRows(old(rows), pmid, updateData) else old(rows)
    {
      if failing || FirstWithPmid(rows, pmid).None? {
        return false;
      }
      var newRows := PatchMatching(rows, pmid, updateData);
      UpdatedRowsMeaning(rows, pmid, updateData);
      rows := newRows;
      ok := true;
    }

    /** The filtered reassignment of `delete_entry`. */
    method DropMatching(table: seq<Row>, pmid: string) returns (newRows: seq<Row>)
      ensures newRows == Kept(table, pmid)
    {
      newRows := [];
      for i := 0 to |table|
        invariant newRows == Kept(table[..i], pmid)
      {
        FilterSnoc(table[..i], table[i], (row: Row) => OtherPmid(pmid, row));
        assert table[..i + 1] == table[..i] + [table[i]];
        if PmidOf(table[i]) != pmid {
          newRows := newRows + [table[i]];
        }
      }
      assert table[..|table|] == table;
    }

    /** `delete_entry`: drop every row with the pmid. */
    method DeleteEntry(pmid: string) returns (ok: bool)
      requires Valid()
      modifies this
      ensures Valid()
      ensures ok <==> !failing && FirstWithPmid(old(rows), pmid).Some?
      ensures rows == if ok then Kept(old(rows), pmid) else old(rows)
    {
      if failing {
        return false;
      }
      var initialCount := |rows|;
      var newRows := DropMatching(rows, pmid);
      KeptMeaning(rows, pmid);
      if |newRows| == initialCount {
        return false;
      }
      rows := newRows;
      ok := true;
    }
  }

  // ---------------------------------------------------------------------
  // How the operations combine
  // ---------------------------------------------------------------------

  lemma {:induction false} FirstWithPmidSnoc(rows: seq<Row>, row: Row, pmid: string)
    requires FirstWithPmid(rows, pmid).None? && PmidOf(row) == pmid
    ensures FirstWithPmid(rows + [row], pmid) == Some(|rows|)
  {
    if rows != [] {
      assert PmidOf(rows[0]) != pmid;
      assert (rows + [row])[0] == rows[0] && (rows + [row])[1..] == rows[1..] + [row];
      assert forall k :: 0 <= k < |rows[1..]| ==> rows[1..][k] == rows[k + 1];
      FirstWithPmidSnoc(rows[1..], row, pmid);
    } else {
      assert [row][0] == row;
    }
  }

  /** A pmid added to a table that did not have it is then found, and the
      row found is the one added. */
  lemma LookupAfterAdd(rows: seq<Row>, entryData: map<string, Value>, now: string)
    requires "pmid" in entryData && FirstWithPmid(rows, ToStr(entryData["pmid"])).None?
    ensures var pmid := ToStr(entryData["pmid"]);
      var added := rows + [EntryRow(entryData, now)];
      FirstWithPmid(added, pmid) == Some(|rows|)
  {
    EntryRowCell(entryData, now, "pmid");
    FirstWithPmidSnoc(rows, EntryRow(entryData, now), ToStr(entryData["pmid"]));
  }

  /** After a delete the pmid is gone. */
  lemma GoneAfterDelete(rows: seq<Row>, pmid: string)
    ensures FirstWithPmid(Kept(rows, pmid), pmid).None?
  {
    KeptMeaning(rows, pmid);
    var kept := Kept(rows, pmid);
    forall k | 0 <= k < |kept| ensures PmidOf(kept[k]) != pmid {
      assert kept[k] in kept;
    }
  }

  /** An update that does not touch the pmid column leaves the same rows
      findable under the pmid, each with the new values. */
  lemma LookupAfterUpdate(rows: seq<Row>, pmid: string, updateData: map<string, Value>)
    requires "pmid" !in updateData
    requires FirstWithPmid(rows, pmid).Some?
    ensures var r := UpdatedRows(rows, pmid, updateData);
      FirstWithPmid(r, pmid) == FirstWithPmid(rows, pmid) &&
      r[FirstWithPmid(rows, pmid).value] == Patch(rows[FirstWithPmid(rows, pmid).value], updateData)
  {
    var r := UpdatedRows(rows, pmid, updateData);
    forall k | 0 <= k < |rows| ensures PmidOf(r[k]) == PmidOf(rows[k]) {
      assert Cell(r[k], "pmid") == Cell(rows[k], "pmid");
    }
    var i := FirstWithPmid(rows, pmid).value;
    assert PmidOf(r[i]) == pmid;
  }
}
