# Labour-survey loader of the graduates-and-population dashboard

This project models the data loader of a small Streamlit dashboard. The
dashboard compares the number of university graduates with the size of the
population aged 15 and over and its share of the workforce in 2018–2021.

The loader (`load_and_process_all_data`) goes through a directory listing and
takes every file whose name starts with `data-YYYY.xls`. It reads the file's
sheet without a header and turns it into a year table as follows:

- it drops the two title rows;
- it cuts off the last column when there are more than nine;
- it uses the next row as the header, then assigns nine column names by position;
- it fills missing age-group cells with empty text;
- it selects the row labelled "all population aged 15 and over", falling back to the row labelled "all population aged 15–70" only when the first label selects nothing;
- it reshapes that row into four rows of (month range, population in thousands, percent of the workforce).

The year table is stored under its year in a module-level dictionary. A loop
over the plotting years then collects the tables of the years that are
present.

The model has five modules:

- `Cells` holds the values: cells, rectangular sheets, year tables and the ways one sheet can fail.
- `FileNames` is the file-name filter and year extraction.
- `Labels` is the two label searches. The primary label is a regular expression with `\s+` between seven words; it has a dedicated matcher, proved sound and complete against the declarative reading "the words joined by non-empty whitespace runs occur in the text".
- `Normaliser` holds the sheet pipeline:
  - each step is a function with its own contract;
  - `NormaliseSheet` is a method that reassigns `data` step by step, as the loader does, proved equal to the function `Normalised`;
  - `MeltRows` is a method with the per-month loop, proved equal to the function `Melt`.
- `WorkData` holds the store and the two loops:
  - the class `WorkDataStore` owns the `yearly` map, which the loader updates in place;
  - `LoadAndProcessAllData` is proved against the fold `LoadAll`;
  - `YearSeries` is proved against `PresentYears`.

I/O enters as parameters:

- the directory listing is the sequence `names`, in whatever order the operating system returns it;
- reading a workbook is a function `read` from a file name to its sheet.

Apart from the failures listed under "Left out", where a pandas call raises,
the model returns an error. The error names the step that failed, and the loop stops at that file. Entries written for the
files before it stay in the store, because the exception leaves the global
dictionary as it was at that point.

A sheet where neither label matches does not give an empty year record.
When no row is selected, the per-month frame pairs a one-element month list
with an empty value column. pandas refuses to build that frame and raises,
and the same happens when two or more rows are selected. The model follows
the code: every selection that is not exactly one row is
`SelectionNotSingle(count)`.

## Model

| member | source | states |
|---|---|---|
| FileNames.DigitsOf | streamlit_app.py:19 | the year read from four digits is at most 9999, and its zero-padded four-digit spelling gives back those digits |
| FileNames.Taken | streamlit_app.py:16-17 | the shape the pattern accepts at the start of a name: `data-`, four digits, `.xls`; no contract of its own, `MatchYearIff` states which names it takes |
| FileNames.MatchYear | streamlit_app.py:16-19 | a taken name is at least 13 characters long, starts with the canonical `data-YYYY.xls` of the year it yields, and the year is at most 9999 |
| FileNames.MatchYearOfFileName | streamlit_app.py:16-19 | every year 0–9999 is recovered from its canonical name, whatever text follows it (the match is anchored only at the start) |
| FileNames.MatchYearIff | streamlit_app.py:16-19 | a name yields a given year exactly when its first 13 characters are that year's canonical name |
| Labels.SkipSpaces | streamlit_app.py:47 | the index reached is the end of the maximal whitespace run starting at i |
| Labels.MatchWordsAt | streamlit_app.py:47 | the greedy `\s+` matcher; its own contract only bounds the end position, and `MatchSound` and `MatchComplete` state what it matches |
| Labels.MatchSound | streamlit_app.py:47 | a successful primary match spans the words joined by non-empty whitespace gaps |
| Labels.MatchComplete | streamlit_app.py:47 | for separable words, every occurrence of the words joined by whitespace gaps is matched, ending where the occurrence ends |
| Labels.SearchWordsFrom | streamlit_app.py:47 | the search from i succeeds iff the words match at some position from i on |
| Labels.SearchWordsIff | streamlit_app.py:47 | for separable words, the search succeeds iff the words joined by whitespace gaps occur in the text |
| Labels.ContainsPrimaryIff | streamlit_app.py:47 | a cell text carries the primary label iff Усе, населення, віком, 15, років, і, старше occur in order joined by whitespace runs |
| Labels.ContainsPrimary | streamlit_app.py:47 | the primary label search; no contract of its own, `ContainsPrimaryIff` states when it holds |
| Labels.FindFrom | streamlit_app.py:49 | the fallback search succeeds iff the literal fallback label occurs at some position |
| Labels.ContainsFallback | streamlit_app.py:49 | the fallback label search; no contract of its own, `FindFrom` states when it holds |
| Normaliser.PairColumns | streamlit_app.py:36-38 | the per-month column names; no contract of its own, `PairColumnsAt` states their positions |
| Normaliser.PairColumnsAt | streamlit_app.py:36-38 | the comprehension yields two names per month range, the population name at 2m and the percent name at 2m+1 |
| Normaliser.Header | streamlit_app.py:36-41 | the nine assigned names; no contract of its own, `HeaderLayout` and `HeaderDistinct` state their layout and distinctness |
| Normaliser.HeaderLayout | streamlit_app.py:36-41 | the assigned header has nine names: `Age Group`, then month m's population at 2m+1 and its percent at 2m+2 |
| Normaliser.HeaderDistinct | streamlit_app.py:36-41 | the nine assigned names are pairwise distinct, so lookup by name is unambiguous |
| Normaliser.ColumnIndex | streamlit_app.py:57-64 | lookup by name finds a position iff the name is present, and it is the first position carrying that name |
| Normaliser.MonthPositions | streamlit_app.py:36-41 | month m's population name is looked up at position 2m+1 of the header, its percent name at 2m+2 |
| Normaliser.ColumnOfMonth | streamlit_app.py:57-64 | looking up month m's two column names finds columns 2m+1 and 2m+2 |
| Normaliser.DropTitleRows | streamlit_app.py:24 | fails iff the sheet has fewer than two rows; otherwise keeps rows 2.. in order with the same width |
| Normaliser.TrimExtraColumn | streamlit_app.py:27-28 | a sheet wider than nine loses exactly its last column, every other cell unchanged; narrower sheets are untouched |
| Normaliser.PromoteHeader | streamlit_app.py:31-33 | fails iff no row is left; otherwise consumes the first row and keeps the rest in order |
| Normaliser.AssignColumnNames | streamlit_app.py:41 | succeeds iff the sheet has exactly nine columns, and then leaves the cells unchanged; otherwise reports the width |
| Normaliser.FillAgeGroup | streamlit_app.py:44 | every missing age-group cell becomes empty text, every other cell is unchanged, and no age-group cell is left missing |
| Normaliser.Prepare | streamlit_app.py:23-44 | a prepared sheet has exactly nine columns |
| Normaliser.FillKeepsMatch | streamlit_app.py:44-49 | filling a missing age group with empty text changes neither search result |
| Normaliser.CellMatches | streamlit_app.py:47-49 | `str.contains(..., na=False)` on one cell; no contract of its own, only text cells can match, and `FillKeepsMatch` states that empty text matches neither label |
| Normaliser.Flags | streamlit_app.py:47 | the mask has one entry per row, set exactly where the row's age-group text carries the label |
| Normaliser.TrueFrom | streamlit_app.py:47 | the set positions of the mask from i on, each once and in increasing order |
| Normaliser.Masked | streamlit_app.py:47 | mask selection keeps exactly the rows whose mask entry is set, one per set position and in their original order, and is empty iff no entry is set |
| Normaliser.SelectTotal | streamlit_app.py:47-49 | the primary selection when any row carries the primary label, otherwise the fallback selection |
| Normaliser.MaskedSingle | streamlit_app.py:47-49 | a mask selects exactly one row iff it is set at exactly one position, and then it selects that row |
| Normaliser.SelectTotalSingle | streamlit_app.py:47-49 | the search selects exactly one row iff some row is chosen (the only primary match, or the only fallback match when nothing carries the primary label), and then it is that row |
| Normaliser.PrimaryPreempts | streamlit_app.py:47-49 | when some row carries the primary label, the selection is non-empty and every selected row carries the primary label |
| Normaliser.SelectedWidth | streamlit_app.py:47-52 | selected rows keep the sheet's width |
| Normaliser.MonthValues | streamlit_app.py:56-64 | looking month m's population and percent columns up by name yields the row's cells 2m+1 and 2m+2 |
| Normaliser.Melt | streamlit_app.py:54-68 | the melt in closed form; no contract of its own, `MeltRows` is proved equal to it and `NormalisedOfSingle` and `NormalisedOkIff` state what it gives |
| Normaliser.MeltRows | streamlit_app.py:54-68 | the per-month loop gives what `Melt` states: for a single selected row, month m's population from column 2m+1 and its percent from column 2m+2, in the fixed month order; for any other selection, `SelectionNotSingle` with its size |
| Normaliser.Expected | streamlit_app.py:55-68 | the expected table has one row per month range |
| Normaliser.Normalised | streamlit_app.py:23-68 | the per-sheet pipeline; no contract of its own, `NormalisedChosen`, `NormalisedOkIff` and `NormalisedLayoutErrors` state what it gives |
| Normaliser.NormaliseSheet | streamlit_app.py:23-68 | the step-by-step normalisation gives exactly the result of the composed pipeline |
| Normaliser.PreparedRows | streamlit_app.py:24-44 | on a sheet of 9 or 10 columns and at least 3 rows, the data rows are the raw rows from index 3 on, first nine columns, with a missing age group read as empty text |
| Normaliser.PreparedMatches | streamlit_app.py:44-49 | each prepared data row carries the same labels as its raw row |
| Normaliser.SelectsChosen | streamlit_app.py:47-49 | on a sheet of the expected layout, the search selects the prepared copy of the chosen raw row |
| Normaliser.NormalisedLayoutErrors | streamlit_app.py:24-41 | fewer than two rows, exactly two rows, and a column count other than 9 or 10 each fail with their own error |
| Normaliser.NormalisedOfSingle | streamlit_app.py:47-68 | when the search selects exactly one row, the year table is that row's four month rows |
| Normaliser.NormalisedChosen | streamlit_app.py:23-68 | a well-laid-out sheet whose chosen row is raw row k gives exactly the four month rows of row k |
| Normaliser.NormalisedOkIff | streamlit_app.py:47-68 | a well-laid-out sheet gives a table iff some row is chosen; otherwise it reports how many rows were selected |
| WorkData.ProcessFile | streamlit_app.py:16-71 | a skipped name leaves the store as it was; a taken name fails exactly when its sheet fails, and otherwise writes its year's table and keeps every other year's entry |
| WorkData.FirstFailure | streamlit_app.py:14-71 | the first taken file whose sheet fails; all before it are fine |
| WorkData.LastFor | streamlit_app.py:14-71 | the last position in the listing taken with a given year |
| WorkData.LoadAll | streamlit_app.py:14-71 | the directory loop as a fold; no contract of its own, `LoadAllFailure`, `LastWriterWins`, `LoadAllOverlays`, `FailureIgnoresStore` and `LoadAllIdempotent` state what it gives |
| WorkData.LoadAllFailure | streamlit_app.py:14-73 | loading fails iff some taken file fails; it then reports the first such file, and the store holds what the files before it wrote |
| WorkData.LastWriterWins | streamlit_app.py:14-71 | without failures, each year's entry comes from the last file in the listing taken with that year, and a year no file has keeps its earlier entry |
| WorkData.LoadAllOverlays | streamlit_app.py:8-73 | loading lays the listing's writes over the store, so earlier entries persist unless overwritten |
| WorkData.FailureIgnoresStore | streamlit_app.py:14-73 | whether and where loading fails does not depend on the store's earlier contents |
| WorkData.LoadAllIdempotent | streamlit_app.py:11-73 | loading the same listing of unchanged files twice gives what loading it once gives |
| WorkData.PresentYears | streamlit_app.py:94-95 | the plotting years with an entry: exactly the years in both, at most as many as the plotting years, in the same increasing order |
| WorkData.PresentYearsSnoc | streamlit_app.py:94-97 | one more plotting year is appended exactly when it has an entry |
| WorkData.PresentYearsOfPlot | streamlit_app.py:6-97 | of 2018–2021, the present years each appear once and in increasing order, one per year that has an entry |
| WorkData.WorkDataStore.constructor | streamlit_app.py:8 | the store starts empty |
| WorkData.WorkDataStore.LoadAndProcessAllData | streamlit_app.py:12-73 | the new store and the reported failure are those of the listing fold from the old store: first failing file reported, earlier writes kept |
| WorkData.WorkDataStore.YearSeries | streamlit_app.py:92-97 | one table per plotting year that has an entry, in plotting order, each the table stored for that year |

## Left out

- Caching (`st.cache_data`). A cache hit returns the copy stored on an earlier call and skips the loop; the model always runs the loop.
- `os.listdir` and `pd.read_excel` are I/O. The listing is the parameter `names`, and reading a sheet is the function parameter `read`.
- Failures of `read_excel` are not modelled. Those are a missing file, a name such as `data-2020.xlsx.bak` that is not a workbook, and an unreadable sheet.
- `\s` is modelled as `re.ASCII` whitespace (space, U+0009–U+000D). Python's default `\s` also accepts U+001C–U+001F and Unicode whitespace such as the no-break space.
- `\d` is modelled on the ASCII digits. Python's default `\d` also accepts other Unicode decimal digits.
- Non-text cell values are opaque codes and are never computed with. A non-text age-group cell never matches, as with `na=False` on an object column.
- The `AttributeError` that `.str` raises on a column with no text at all is not modelled.
- The header row's own values are discarded, because the nine names overwrite them at once.
- WorkData.WorkDataStore.YearSeries: returns each present year's table rather than the floating-point sums of its population and percent columns, because floating point is not modelled.
- The education constants, the plot frame, min–max normalisation and all Streamlit rendering are left out. They are display code outside the loader.
- Rebinding the global dictionary to the function's return value is left out. It is the same object unless the cache answers.
