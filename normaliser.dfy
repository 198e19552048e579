/**
 Turning one yearly labour sheet into its long-format table.

 The sheet is read without a header. Rows 0 and 1 (title rows) are dropped,
 a sheet wider than nine columns loses its last column, the next row is
 consumed as the header, nine column names are assigned by position, and
 missing age-group cells become empty text. Then the row labelled "all
 population aged 15 and over" is selected (the row labelled "all population
 aged 15-70" only when the first label selects nothing), and the selected row
 is reshaped into four (month range, population, percent) rows.
 */
module Normaliser {
  import opened Cells
  import opened Labels

  const Months: seq<string> := ["January-March", "January-June", "January-September", "January-December"]

  const AgeGroup: string := "Age Group"
  const PopulationSuffix: string := " (тыс. осіб)"
  const WorkforceSuffix: string := " (% до робочої сили)"

  /** Sheets wider than this lose their last column. */
  const MaxColumns: nat := 9

  /** The number of column names assigned to the sheet. */
  const ColumnCount: nat := 9

  function PopulationColumn(month: string): string {
    month + PopulationSuffix
  }

  function WorkforceColumn(month: string): string {
    month + WorkforceSuffix
  }

  /** The comprehension over the month ranges: each month contributes its
      population column and then its percent column. */
  function PairColumns(months: seq<string>): (names: seq<string>)
    decreases |months|
  {
    if |months| == 0 then []
    else [PopulationColumn(months[0]), WorkforceColumn(months[0])] + PairColumns(months[1..])
  }

  lemma {:induction false} PairColumnsAt(months: seq<string>, m: nat)
    requires m < |months|
    ensures |PairColumns(months)| == 2 * |months|
    ensures PairColumns(months)[2 * m] == PopulationColumn(months[m])
    ensures PairColumns(months)[2 * m + 1] == WorkforceColumn(months[m])
    decreases |months|
  {
    if m > 0 {
      PairColumnsAt(months[1..], m - 1);
    } else if |months| > 1 {
      PairColumnsAt(months[1..], 0);
    }
  }

  /** The column names assigned to the sheet. */
  function Header(): seq<string> {
    [AgeGroup] + PairColumns(Months)
  }

  /** Position of month m's population column is 2m+1, of its percent column 2m+2. */
  lemma HeaderLayout()
    ensures |Header()| == ColumnCount && Header()[0] == AgeGroup
    ensures forall m :: 0 <= m < |Months| ==>
      Header()[2 * m + 1] == PopulationColumn(Months[m]) && Header()[2 * m + 2] == WorkforceColumn(Months[m])
  {
    forall m | 0 <= m < |Months|
      ensures Header()[2 * m + 1] == PopulationColumn(Months[m]) && Header()[2 * m + 2] == WorkforceColumn(Months[m])
    {
      PairColumnsAt(Months, m);
    }
    PairColumnsAt(Months, 0);
  }

  /** No two of the nine names coincide (they even differ in length). */
  lemma HeaderDistinct()
    ensures forall a, b :: 0 <= a < b < |Header()| ==> Header()[a] != Header()[b]
  {
    HeaderLayout();
    var lengths := seq(|Header()|, k requires 0 <= k < |Header()| => |Header()[k]|);
    assert lengths == [9, 25, 33, 24, 32, 29, 37, 28, 36];
  }

  /** Label lookup of a column: the first position carrying the name. The nine names are
      distinct (`HeaderDistinct`), so this is the column `cache[name]` returns. */
  function ColumnIndex(names: seq<string>, name: string): (r: Option<nat>)
    ensures r.Some? <==> name in names
    ensures r.Some? ==> r.value < |names| && names[r.value] == name
    ensures r.Some? ==> forall j :: 0 <= j < r.value ==> names[j] != name
    decreases |names|
  {
    if |names| == 0 then None
    else if names[0] == name then Some(0)
    else match ColumnIndex(names[1..], name)
      case None => None
      case Some(k) => Some(k + 1)
  }

  /** The cell of a named column in a row of the renamed sheet. */
  function ColumnOf(row: Row, name: string): Cell
    requires |row| == ColumnCount && name in Header()
  {
    HeaderLayout();
    row[ColumnIndex(Header(), name).value]
  }

  /** A name found at position p and at no earlier position is looked up at p. */
  lemma ColumnIndexAt(names: seq<string>, name: string, p: nat)
    requires p < |names| && names[p] == name
    requires forall j :: 0 <= j < p ==> names[j] != name
    ensures ColumnIndex(names, name) == Some(p)
  {
    assert name in names;
  }

  /** In a list of pairwise distinct names, the name at position p is looked up at p. */
  lemma DistinctLookup(names: seq<string>, p: nat)
    requires p < |names|
    requires forall a, b :: 0 <= a < b < |names| ==> names[a] != names[b]
    ensures ColumnIndex(names, names[p]) == Some(p)
  {
    ColumnIndexAt(names, names[p], p);
  }

  /** Month m's two column names are looked up at positions 2m+1 and 2m+2 of the header. */
  lemma MonthPositions(m: nat)
    requires m < |Months|
    ensures ColumnIndex(Header(), PopulationColumn(Months[m])) == Some(2 * m + 1)
    ensures ColumnIndex(Header(), WorkforceColumn(Months[m])) == Some(2 * m + 2)
  {
    HeaderLayout();
    HeaderDistinct();
    DistinctLookup(Header(), 2 * m + 1);
    DistinctLookup(Header(), 2 * m + 2);
  }

  /** Looking a month's columns up by name finds positions 2m+1 and 2m+2. */
  lemma ColumnOfMonth(row: Row, m: nat)
    requires |row| == ColumnCount && m < |Months|
    ensures PopulationColumn(Months[m]) in Header() && WorkforceColumn(Months[m]) in Header()
    ensures ColumnOf(row, PopulationColumn(Months[m])) == row[2 * m + 1]
    ensures ColumnOf(row, WorkforceColumn(Months[m])) == row[2 * m + 2]
  {
    MonthPositions(m);
  }

  // ---------------------------------------------------------------------------
  // The grid steps, each on a rectangular sheet.

  /** `drop([0, 1])`: fails when row 0 or row 1 does not exist, otherwise keeps the rest in order. */
  function DropTitleRows(f: Sheet): (r: Result<Sheet, SheetError>)
    ensures r.Err? <==> |f.rows| < 2
    ensures r.Err? ==> r.error == MissingTitleRows
    ensures r.Ok? ==> r.value.width == f.width && r.value.rows == f.rows[2..]
  {
    if |f.rows| < 2 then Err(MissingTitleRows) else Ok(Frame(f.width, f.rows[2..]))
  }

  /** `iloc[:, :-1]` when there are more than nine columns. */
  function TrimExtraColumn(f: Sheet): (r: Sheet)
    ensures r.width == if f.width > MaxColumns then f.width - 1 else f.width
    ensures |r.rows| == |f.rows|
    ensures forall k, c :: 0 <= k < |f.rows| && 0 <= c < r.width ==> r.rows[k][c] == f.rows[k][c]
  {
    if f.width > MaxColumns then
      Frame(f.width - 1, seq(|f.rows|, k requires 0 <= k < |f.rows| => f.rows[k][..f.width - 1]))
    else
      f
  }

  /** `data.iloc[0]` taken as the header and `data[1:]` kept: fails on a sheet with no row left.
      The header's own cells are discarded, since the names are reassigned right after. */
  function PromoteHeader(f: Sheet): (r: Result<Sheet, SheetError>)
    ensures r.Err? <==> |f.rows| == 0
    ensures r.Err? ==> r.error == MissingHeaderRow
    ensures r.Ok? ==> r.value.width == f.width && r.value.rows == f.rows[1..]
  {
    if |f.rows| == 0 then Err(MissingHeaderRow) else Ok(Frame(f.width, f.rows[1..]))
  }

  /** `data.columns = ["Age Group", ...]`: only a nine-column sheet takes the nine names. */
  function AssignColumnNames(f: Sheet): (r: Result<Sheet, SheetError>)
    ensures r.Ok? <==> f.width == ColumnCount
    ensures r.Err? ==> r.error == ColumnCountMismatch(f.width)
    ensures r.Ok? ==> r.value == f
  {
    if f.width != ColumnCount then Err(ColumnCountMismatch(f.width)) else Ok(f)
  }

  function FillCell(c: Cell): Cell {
    if c.Missing? then Str("") else c
  }

  /** `fillna("")` on the age-group column. */
  function FillAgeGroup(f: Sheet): (r: Sheet)
    requires f.width >= 1
    ensures r.width == f.width && |r.rows| == |f.rows|
    ensures forall k :: 0 <= k < |f.rows| ==>
      r.rows[k][0] == FillCell(f.rows[k][0]) && r.rows[k][1..] == f.rows[k][1..]
    ensures forall k :: 0 <= k < |f.rows| ==> r.rows[k][0] != Missing
  {
    Frame(f.width, seq(|f.rows|, k requires 0 <= k < |f.rows| => [FillCell(f.rows[k][0])] + f.rows[k][1..]))
  }

  /** Everything before the row search: the named, filled data rows, or the step that failed. */
  function Prepare(sheet: Sheet): (r: Result<Sheet, SheetError>)
    ensures r.Ok? ==> r.value.width == ColumnCount
  {
    match DropTitleRows(sheet)
    case Err(e) => Err(e)
    case Ok(body) =>
      match PromoteHeader(TrimExtraColumn(body))
      case Err(e) => Err(e)
      case Ok(data) =>
        match AssignColumnNames(data)
        case Err(e) => Err(e)
        case Ok(named) => Ok(FillAgeGroup(named))
  }

  // ---------------------------------------------------------------------------
  // Row search.

  datatype Label = Primary | Fallback

  /** `str.contains(..., na=False)` on one age-group cell: only text can match. */
  predicate CellMatches(c: Cell, which: Label) {
    match c
    case Str(t) => if which == Primary then ContainsPrimary(t) else ContainsFallback(t)
    case _ => false
  }

  predicate RowMatches(row: Row, which: Label) {
    |row| > 0 && CellMatches(row[0], which)
  }

  /** The boolean mask `data['Age Group'].str.contains(...)`. */
  function Flags(rows: seq<Row>, which: Label): (flags: seq<bool>)
    ensures |flags| == |rows|
    ensures forall k :: 0 <= k < |rows| ==> (flags[k] <==> RowMatches(rows[k], which))
  {
    seq(|rows|, k requires 0 <= k < |rows| => RowMatches(rows[k], which))
  }

  /** The positions from i on where the mask is set, in increasing order. */
  function TrueFrom(flags: seq<bool>, i: nat): (idx: seq<nat>)
    requires i <= |flags|
    ensures forall j :: 0 <= j < |idx| ==> i <= idx[j] < |flags| && flags[idx[j]]
    ensures forall j, j' :: 0 <= j < j' < |idx| ==> idx[j] < idx[j']
    ensures forall k :: i <= k < |flags| && flags[k] ==> k in idx
    decreases |flags| - i
  {
    if i == |flags| then []
    else if flags[i] then [i] + TrueFrom(flags, i + 1)
    else TrueFrom(flags, i + 1)
  }

  /** Boolean-mask selection `data[mask]`: the rows where the mask is set, in their original order. */
  function Masked(rows: seq<Row>, flags: seq<bool>): (r: seq<Row>)
    requires |flags| == |rows|
    ensures forall x :: x in r ==> exists k :: 0 <= k < |rows| && flags[k] && rows[k] == x
    ensures forall k :: 0 <= k < |rows| && flags[k] ==> rows[k] in r
    ensures |r| == 0 <==> true !in flags
    ensures |r| == |TrueFrom(flags, 0)|
    ensures forall j :: 0 <= j < |r| ==> r[j] == rows[TrueFrom(flags, 0)[j]]
  {
    var idx := TrueFrom(flags, 0);
    var r := seq(|idx|, j requires 0 <= j < |idx| => rows[idx[j]]);
    PickedOnlyMasked(rows, flags, idx, r);
    PickedAllMasked(rows, flags, idx, r);
    r
  }

  /** Rows picked at set positions of the mask are masked rows. */
  lemma PickedOnlyMasked(rows: seq<Row>, flags: seq<bool>, idx: seq<nat>, r: seq<Row>)
    requires |flags| == |rows| && |r| == |idx|
    requires forall j :: 0 <= j < |idx| ==> idx[j] < |flags| && flags[idx[j]] && r[j] == rows[idx[j]]
    ensures forall x :: x in r ==> exists k :: 0 <= k < |rows| && flags[k] && rows[k] == x
  {
    forall x | x in r ensures exists k :: 0 <= k < |rows| && flags[k] && rows[k] == x {
      var j :| 0 <= j < |r| && r[j] == x;
      assert flags[idx[j]] && rows[idx[j]] == x;
    }
  }

  /** Picking the rows at all set positions of the mask misses none, and picks some iff the mask is set somewhere. */
  lemma PickedAllMasked(rows: seq<Row>, flags: seq<bool>, idx: seq<nat>, r: seq<Row>)
    requires |flags| == |rows| && |r| == |idx|
    requires forall j :: 0 <= j < |idx| ==> idx[j] < |flags| && flags[idx[j]] && r[j] == rows[idx[j]]
    requires forall k :: 0 <= k < |flags| && flags[k] ==> k in idx
    ensures forall k :: 0 <= k < |rows| && flags[k] ==> rows[k] in r
    ensures |r| == 0 <==> true !in flags
  {
    forall k | 0 <= k < |rows| && flags[k] ensures rows[k] in r {
      var j :| 0 <= j < |idx| && idx[j] == k;
      assert r[j] == rows[k];
    }
    if true in flags {
      var k :| 0 <= k < |flags| && flags[k];
      assert k in idx;
    }
    if |r| > 0 {
      assert flags[idx[0]];
    }
  }

  /** The primary search, and the fallback search only when the primary one selects nothing. */
  function SelectTotal(rows: seq<Row>): (r: seq<Row>)
    ensures true in Flags(rows, Primary) ==> r == Masked(rows, Flags(rows, Primary))
    ensures true !in Flags(rows, Primary) ==> r == Masked(rows, Flags(rows, Fallback))
  {
    var primary := Masked(rows, Flags(rows, Primary));
    if |primary| == 0 then Masked(rows, Flags(rows, Fallback)) else primary
  }

  /** Position k is the only one where the mask is set. */
  ghost predicate OnlyTrue(flags: seq<bool>, k: int) {
    0 <= k < |flags| && flags[k] && forall j :: 0 <= j < |flags| && j != k ==> !flags[j]
  }

  /** Row k is the one the search settles on: the only primary match, or, when
      nothing matches the primary label, the only fallback match. */
  ghost predicate ChosenRow(rows: seq<Row>, k: int) {
    var primary := Flags(rows, Primary);
    OnlyTrue(primary, k) || (true !in primary && OnlyTrue(Flags(rows, Fallback), k))
  }

  /** A strictly increasing sequence of indices spreads at least as far as it is long. */
  lemma {:induction false} IncreasingSpread(idx: seq<nat>)
    requires |idx| > 0
    requires forall j, j' :: 0 <= j < j' < |idx| ==> idx[j] < idx[j']
    ensures idx[|idx| - 1] - idx[0] >= |idx| - 1
    decreases |idx|
  {
    if |idx| > 1 {
      IncreasingSpread(idx[..|idx| - 1]);
    }
  }

  /** The mask selects exactly one row iff it is set at exactly one position, and then it is that row. */
  lemma {:induction false} MaskedSingle(rows: seq<Row>, flags: seq<bool>)
    requires |flags| == |rows|
    ensures |Masked(rows, flags)| == 1 <==> exists k :: OnlyTrue(flags, k)
    ensures forall k :: OnlyTrue(flags, k) ==> Masked(rows, flags) == [rows[k]]
  {
    var idx := TrueFrom(flags, 0);
    forall k | OnlyTrue(flags, k) ensures Masked(rows, flags) == [rows[k]] {
      assert k in idx;
      IncreasingSpread(idx);
    }
    if |Masked(rows, flags)| == 1 {
      assert OnlyTrue(flags, idx[0]) by {
        forall j | 0 <= j < |flags| && j != idx[0] ensures !flags[j] {
        }
      }
    }
  }

  /** The search selects exactly one row iff some row is chosen, and then it selects that row. */
  lemma {:induction false} SelectTotalSingle(rows: seq<Row>)
    ensures |SelectTotal(rows)| == 1 <==> exists k :: ChosenRow(rows, k)
    ensures forall k :: ChosenRow(rows, k) ==> SelectTotal(rows) == [rows[k]]
  {
    var primary := Flags(rows, Primary);
    var fallback := Flags(rows, Fallback);
    MaskedSingle(rows, primary);
    MaskedSingle(rows, fallback);
    forall k | ChosenRow(rows, k) ensures SelectTotal(rows) == [rows[k]] {
      if OnlyTrue(primary, k) {
        assert primary[k];
      }
    }
    if |SelectTotal(rows)| == 1 {
      if true in primary {
        var k :| OnlyTrue(primary, k);
        assert ChosenRow(rows, k);
      } else {
        var k :| OnlyTrue(fallback, k);
        assert ChosenRow(rows, k);
      }
    }
  }

  /** When some row carries the primary label, the fallback label plays no part:
      every selected row carries the primary label, and at least one is selected. */
  lemma {:induction false} PrimaryPreempts(rows: seq<Row>)
    requires exists k :: 0 <= k < |rows| && RowMatches(rows[k], Primary)
    ensures forall x :: x in SelectTotal(rows) ==> RowMatches(x, Primary)
    ensures |SelectTotal(rows)| > 0
  {
    var k :| 0 <= k < |rows| && RowMatches(rows[k], Primary);
    var primary := Flags(rows, Primary);
    assert primary[k];
    forall x | x in SelectTotal(rows) ensures RowMatches(x, Primary) {
      var j :| 0 <= j < |rows| && primary[j] && rows[j] == x;
    }
  }

  // ---------------------------------------------------------------------------
  // Reshaping.

  /** The four per-month frames concatenated: each pairs a one-element month list with
      the selected rows' values, which only fits when exactly one row is selected. */
  function Melt(selected: seq<Row>): Result<YearTable, SheetError>
    requires forall k :: 0 <= k < |selected| ==> |selected[k]| == ColumnCount
  {
    if |selected| != 1 then Err(SelectionNotSingle(|selected|))
    else Ok(Expected(selected[0]))
  }

  /** The whole normalisation of one sheet. */
  function Normalised(sheet: Sheet): Result<YearTable, SheetError> {
    match Prepare(sheet)
    case Err(e) => Err(e)
    case Ok(data) =>
      SelectedWidth(data);
      Melt(SelectTotal(data.rows))
  }

  /** The rows a search selects on a sheet have the sheet's width. */
  lemma SelectedWidth(f: Sheet)
    ensures forall k :: 0 <= k < |SelectTotal(f.rows)| ==> |SelectTotal(f.rows)[k]| == f.width
  {
    var r := SelectTotal(f.rows);
    forall k | 0 <= k < |r| ensures |r[k]| == f.width {
      assert r[k] in r;
      var j :| 0 <= j < |f.rows| && f.rows[j] == r[k];
    }
  }

  /** `cache[pop_col].values` and `cache[workforce_col].values` on the single selected
      row: both columns are looked up by name. */
  method MonthValues(row: Row, m: nat) returns (population: Cell, workforce: Cell)
    requires |row| == ColumnCount && m < |Months|
    ensures population == row[2 * m + 1] && workforce == row[2 * m + 2]
  {
    ColumnOfMonth(row, m);
    population := ColumnOf(row, PopulationColumn(Months[m]));
    workforce := ColumnOf(row, WorkforceColumn(Months[m]));
  }

  /** The `for i, month` loop: grows the long table one month at a time from the selection. */
  method MeltRows(selected: seq<Row>) returns (r: Result<YearTable, SheetError>)
    requires forall k :: 0 <= k < |selected| ==> |selected[k]| == ColumnCount
    ensures r == Melt(selected)
  {
    var melted: YearTable := [];
    for i := 0 to |Months|
      invariant i == 0 ==> melted == []
      invariant i > 0 ==> |selected| == 1 && melted == Expected(selected[0])[..i]
    {
      if |selected| != 1 {
        return Err(SelectionNotSingle(|selected|));
      }
      var population, workforce := MonthValues(selected[0], i);
      var expected := Expected(selected[0]);
      assert expected[..i + 1] == expected[..i] + [MonthRow(Months[i], population, workforce)];
      melted := melted + [MonthRow(Months[i], population, workforce)];
    }
    assert melted == Expected(selected[0]);
    r := Ok(melted);
  }

  /** The same normalisation, step by step as the loader performs it: `data` is
      reassigned after each step, then the selection is reshaped. */
  method NormaliseSheet(sheet: Sheet) returns (r: Result<YearTable, SheetError>)
    ensures r == Normalised(sheet)
  {
    var dropped := DropTitleRows(sheet);
    if dropped.Err? {
      return Err(dropped.error);
    }
    var data := dropped.value;
    data := TrimExtraColumn(data);
    var promoted := PromoteHeader(data);
    if promoted.Err? {
      return Err(promoted.error);
    }
    data := promoted.value;
    var named := AssignColumnNames(data);
    if named.Err? {
      return Err(named.error);
    }
    data := FillAgeGroup(named.value);
    assert Prepare(sheet) == Ok(data);
    var cache := SelectTotal(data.rows);
    SelectedWidth(data);
    r := MeltRows(cache);
  }

  // ---------------------------------------------------------------------------
  // What the normalisation promises.

  /** The four rows expected from a selected raw row: month m's population from
      column 2m+1, its percent from column 2m+2. */
  function Expected(row: Row): (t: YearTable)
    requires |row| >= ColumnCount
    ensures |t| == |Months|
  {
    seq(|Months|, m requires 0 <= m < |Months| => MonthRow(Months[m], row[2 * m + 1], row[2 * m + 2]))
  }

  /** Filling a missing age group with empty text changes no search result. */
  lemma FillKeepsMatch(c: Cell, which: Label)
    ensures CellMatches(FillCell(c), which) == CellMatches(c, which)
  {
    if c.Missing? {
      assert !FindFrom("", FallbackLabel, 0);
      assert !MatchWordsAt("", 0, PrimaryWords).Some?;
      assert !SearchWordsFrom("", PrimaryWords, 0);
    }
  }

  /** The data rows are the sheet's rows from index 3 on, in order: rows 0 and 1
      are dropped, row 2 is consumed as the header; only the first nine columns are
      kept, and a missing age group reads as empty text. */
  lemma {:induction false} PreparedRows(sheet: Sheet)
    requires |sheet.rows| >= 3 && (sheet.width == ColumnCount || sheet.width == ColumnCount + 1)
    ensures Prepare(sheet).Ok?
    ensures var data := Prepare(sheet).value;
      |data.rows| == |sheet.rows| - 3 &&
      forall k :: 0 <= k < |data.rows| ==>
        data.rows[k][0] == FillCell(sheet.rows[k + 3][0]) &&
        forall c :: 1 <= c < ColumnCount ==> data.rows[k][c] == sheet.rows[k + 3][c]
  {
    HeaderLayout();
    var body := DropTitleRows(sheet).value;
    var trimmed := TrimExtraColumn(body);
    var data := PromoteHeader(trimmed).value;
    var filled := FillAgeGroup(data);
    assert Prepare(sheet) == Ok(filled);
    forall k | 0 <= k < |filled.rows|
      ensures filled.rows[k][0] == FillCell(sheet.rows[k + 3][0])
      ensures forall c :: 1 <= c < ColumnCount ==> filled.rows[k][c] == sheet.rows[k + 3][c]
    {
      assert data.rows[k] == trimmed.rows[k + 1];
      forall c | 1 <= c < ColumnCount ensures filled.rows[k][c] == sheet.rows[k + 3][c] {
        assert filled.rows[k][c] == filled.rows[k][1..][c - 1];
      }
    }
  }

  /** Which steps fail, and why, before a row is searched for. */
  lemma {:induction false} NormalisedLayoutErrors(sheet: Sheet)
    ensures |sheet.rows| < 2 ==> Normalised(sheet) == Err(MissingTitleRows)
    ensures |sheet.rows| == 2 ==> Normalised(sheet) == Err(MissingHeaderRow)
    ensures |sheet.rows| >= 3 && sheet.width < ColumnCount ==>
      Normalised(sheet) == Err(ColumnCountMismatch(sheet.width))
    ensures |sheet.rows| >= 3 && sheet.width > ColumnCount + 1 ==>
      Normalised(sheet) == Err(ColumnCountMismatch(sheet.width - 1))
  {
    HeaderLayout();
  }

  /** Rows that match the same labels are chosen alike. */
  lemma {:induction false} ChosenAlike(a: seq<Row>, b: seq<Row>)
    requires |a| == |b|
    requires forall k, which :: 0 <= k < |a| ==> (RowMatches(a[k], which) <==> RowMatches(b[k], which))
    ensures forall which :: Flags(a, which) == Flags(b, which)
    ensures forall k :: ChosenRow(a, k) <==> ChosenRow(b, k)
  {
    forall which ensures Flags(a, which) == Flags(b, which) {
    }
  }

  /** The prepared data rows match exactly the labels their raw rows (from index 3) match. */
  lemma {:induction false} PreparedMatches(sheet: Sheet)
    requires |sheet.rows| >= 3 && (sheet.width == ColumnCount || sheet.width == ColumnCount + 1)
    ensures Prepare(sheet).Ok?
    ensures var rows := Prepare(sheet).value.rows;
      |rows| == |sheet.rows[3..]| &&
      forall k, which :: 0 <= k < |rows| ==> (RowMatches(rows[k], which) <==> RowMatches(sheet.rows[3..][k], which))
  {
    PreparedRows(sheet);
    var rows := Prepare(sheet).value.rows;
    forall k, which | 0 <= k < |rows|
      ensures RowMatches(rows[k], which) <==> RowMatches(sheet.rows[3..][k], which)
    {
      assert sheet.rows[3..][k] == sheet.rows[k + 3];
      FillKeepsMatch(sheet.rows[k + 3][0], which);
    }
  }

  /** Rows that agree on the month columns 1..8 reshape alike. */
  lemma ExpectedAlike(a: Row, b: Row)
    requires |a| >= ColumnCount && |b| >= ColumnCount
    requires forall c :: 1 <= c < ColumnCount ==> a[c] == b[c]
    ensures Expected(a) == Expected(b)
  {
    forall m | 0 <= m < |Months| ensures Expected(a)[m] == Expected(b)[m] {
      assert a[2 * m + 1] == b[2 * m + 1] && a[2 * m + 2] == b[2 * m + 2];
    }
  }

  /** On a sheet of the expected layout, the search selects the chosen data row k. */
  lemma {:induction false} SelectsChosen(sheet: Sheet, k: nat)
    requires |sheet.rows| >= 3 && (sheet.width == ColumnCount || sheet.width == ColumnCount + 1)
    requires k >= 3 && ChosenRow(sheet.rows[3..], k - 3)
    ensures Prepare(sheet).Ok? && k - 3 < |Prepare(sheet).value.rows|
    ensures SelectTotal(Prepare(sheet).value.rows) == [Prepare(sheet).value.rows[k - 3]]
  {
    PreparedMatches(sheet);
    var data := Prepare(sheet).value.rows;
    ChosenAlike(data, sheet.rows[3..]);
    SelectTotalSingle(data);
  }

  /** The prepared row k-3 and the raw row k carry the same month values. */
  lemma {:induction false} PreparedExpected(sheet: Sheet, k: nat)
    requires |sheet.rows| >= 3 && (sheet.width == ColumnCount || sheet.width == ColumnCount + 1)
    requires 3 <= k < |sheet.rows|
    ensures Prepare(sheet).Ok? && k - 3 < |Prepare(sheet).value.rows|
    ensures Expected(Prepare(sheet).value.rows[k - 3]) == Expected(sheet.rows[k])
  {
    PreparedRows(sheet);
    var row := Prepare(sheet).value.rows[k - 3];
    assert forall c :: 1 <= c < ColumnCount ==> row[c] == sheet.rows[k][c] by {
      assert k - 3 + 3 == k;
    }
    ExpectedAlike(row, sheet.rows[k]);
  }

  /** When the search on the prepared sheet selects one row, the year table is that row reshaped. */
  lemma NormalisedOfSingle(sheet: Sheet, row: Row)
    requires Prepare(sheet).Ok? && SelectTotal(Prepare(sheet).value.rows) == [row]
    ensures |row| == ColumnCount && Normalised(sheet) == Ok(Expected(row))
  {
    SelectedWidth(Prepare(sheet).value);
    assert [row][0] == row;
  }

  /** A sheet of the expected layout whose chosen data row is raw row k yields
      exactly the four month rows of row k. */
  lemma {:induction false} NormalisedChosen(sheet: Sheet, k: nat)
    requires |sheet.rows| >= 3 && (sheet.width == ColumnCount || sheet.width == ColumnCount + 1)
    requires k >= 3 && ChosenRow(sheet.rows[3..], k - 3)
    ensures Normalised(sheet) == Ok(Expected(sheet.rows[k]))
  {
    SelectsChosen(sheet, k);
    var row := Prepare(sheet).value.rows[k - 3];
    NormalisedOfSingle(sheet, row);
    PreparedExpected(sheet, k);
  }

  /** A sheet of the expected layout yields a table iff some data row is chosen;
      otherwise the number of selected rows is reported. */
  lemma {:induction false} NormalisedOkIff(sheet: Sheet)
    requires |sheet.rows| >= 3 && (sheet.width == ColumnCount || sheet.width == ColumnCount + 1)
    ensures Normalised(sheet).Ok? <==> exists k :: ChosenRow(sheet.rows[3..], k)
    ensures Normalised(sheet).Err? ==>
      Normalised(sheet) == Err(SelectionNotSingle(|SelectTotal(Prepare(sheet).value.rows)|))
  {
    PreparedMatches(sheet);
    var data := Prepare(sheet).value.rows;
    ChosenAlike(data, sheet.rows[3..]);
    SelectTotalSingle(data);
  }
}
