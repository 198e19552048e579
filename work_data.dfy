/**
 The yearly store of labour tables and the two loops around it: the directory
 loop that normalises every taken file into the store, and the loop that
 gathers the tables of the dashboard's years.

 The store is a module-level dictionary in the program, so it lives in an
 object here; entries written by an earlier load stay. An exception raised
 while normalising a file ends the directory loop at that file, after the
 entries of the files before it were written.
 */
module WorkData {
  import opened Cells
  import opened FileNames
  import opened Normaliser

  /** The years the dashboard plots, in plotting order. */
  const Years: seq<nat> := [2018, 2019, 2020, 2021]

  type Store = map<nat, YearTable>

  /** What normalising the sheet of each file gives, by file name. */
  type Outcome = string -> Result<YearTable, SheetError>

  /** The outcomes when each file's sheet is read through `read` and normalised. */
  function Outcomes(read: string -> Sheet): Outcome {
    (name: string) => Normalised(read(name))
  }

  /** The file whose sheet could not be normalised, and why. */
  datatype FileFailure = FileFailure(name: string, error: SheetError)

  datatype LoadOutcome = LoadOutcome(store: Store, failure: Option<FileFailure>)

  /** One pass of the directory loop: a skipped name changes nothing; a taken name
      writes its year's table over any earlier one, or fails with its sheet. */
  function ProcessFile(store: Store, name: string, outcome: Outcome): (r: Result<Store, SheetError>)
    ensures MatchYear(name).None? ==> r == Ok(store)
    ensures MatchYear(name).Some? ==> (r.Err? <==> outcome(name).Err?)
    ensures r.Err? ==> outcome(name) == Err(r.error)
    ensures r.Ok? && MatchYear(name).Some? ==>
      var year := MatchYear(name).value;
      r.value.Keys == store.Keys + {year} && outcome(name) == Ok(r.value[year]) &&
      forall y :: y in store && y != year ==> r.value[y] == store[y]
  {
    match MatchYear(name)
    case None => Ok(store)
    case Some(year) =>
      match outcome(name)
      case Err(e) => Err(e)
      case Ok(table) => Ok(store[year := table])
  }

  /** The directory loop over the listing, in listing order. */
  function LoadAll(store: Store, names: seq<string>, outcome: Outcome): LoadOutcome
    decreases |names|
  {
    if |names| == 0 then LoadOutcome(store, None)
    else match ProcessFile(store, names[0], outcome)
      case Err(e) => LoadOutcome(store, Some(FileFailure(names[0], e)))
      case Ok(next) => LoadAll(next, names[1..], outcome)
  }

  /** A name that is skipped, or whose sheet normalises. */
  predicate Fine(name: string, outcome: Outcome) {
    MatchYear(name).None? || outcome(name).Ok?
  }

  /** The first taken file whose sheet does not normalise. */
  function FirstFailure(names: seq<string>, outcome: Outcome): (r: Option<nat>)
    ensures r.Some? ==> r.value < |names| && !Fine(names[r.value], outcome)
    ensures r.Some? ==> forall j :: 0 <= j < r.value ==> Fine(names[j], outcome)
    ensures r.None? ==> forall j :: 0 <= j < |names| ==> Fine(names[j], outcome)
    decreases |names|
  {
    if |names| == 0 then None
    else if !Fine(names[0], outcome) then Some(0)
    else
      assert forall j :: 1 <= j < |names| ==> names[j] == names[1..][j - 1];
      match FirstFailure(names[1..], outcome)
      case None => None
      case Some(i) => Some(i + 1)
  }

  /** The last position in the listing whose name is taken with the given year. */
  function LastFor(names: seq<string>, year: nat): (r: Option<nat>)
    ensures r.Some? ==> r.value < |names| && MatchYear(names[r.value]) == Some(year)
    ensures r.Some? ==> forall j :: r.value < j < |names| ==> MatchYear(names[j]) != Some(year)
    ensures r.None? ==> forall j :: 0 <= j < |names| ==> MatchYear(names[j]) != Some(year)
    decreases |names|
  {
    if |names| == 0 then None
    else match LastFor(names[1..], year)
      case Some(i) => Some(i + 1)
      case None => if MatchYear(names[0]) == Some(year) then Some(0) else None
  }

  /** The loop stops at the first failing file and reports it; the store then holds
      what the files before it wrote. Without a failing file it reports nothing. */
  lemma {:induction false} LoadAllFailure(store: Store, names: seq<string>, outcome: Outcome)
    ensures LoadAll(store, names, outcome).failure.None? <==> FirstFailure(names, outcome).None?
    ensures FirstFailure(names, outcome).Some? ==>
      var i := FirstFailure(names, outcome).value;
      LoadAll(store, names[..i], outcome).failure.None? &&
      LoadAll(store, names, outcome) ==
        LoadOutcome(LoadAll(store, names[..i], outcome).store,
                    Some(FileFailure(names[i], outcome(names[i]).error)))
    decreases |names|
  {
    if |names| > 0 {
      if Fine(names[0], outcome) {
        var next := ProcessFile(store, names[0], outcome).value;
        LoadAllFailure(next, names[1..], outcome);
        if FirstFailure(names, outcome).Some? {
          var i := FirstFailure(names, outcome).value;
          assert names[..i][1..] == names[1..][..i - 1];
          assert names[1..][i - 1] == names[i];
        }
      } else {
        assert names[..0] == [];
      }
    }
  }

  /** Without a failing file in the listing, none fails in its tail either. */
  lemma FineTail(names: seq<string>, outcome: Outcome)
    requires |names| > 0 && FirstFailure(names, outcome).None?
    ensures Fine(names[0], outcome) && FirstFailure(names[1..], outcome).None?
  {
    forall j | 0 <= j < |names[1..]| ensures Fine(names[1..][j], outcome) {
      assert names[1..][j] == names[j + 1];
    }
  }

  /** Where one year's entry comes from after a load without failures. */
  lemma {:induction false} LastWriterAt(store: Store, names: seq<string>, outcome: Outcome, y: nat)
    requires FirstFailure(names, outcome).None?
    ensures var out := LoadAll(store, names, outcome).store;
      match LastFor(names, y)
      case Some(i) => y in out && outcome(names[i]) == Ok(out[y])
      case None => (y in out <==> y in store) && (y in store ==> out[y] == store[y])
    decreases |names|
  {
    if |names| > 0 {
      FineTail(names, outcome);
      var next := ProcessFile(store, names[0], outcome).value;
      assert LoadAll(store, names, outcome) == LoadAll(next, names[1..], outcome);
      LastWriterAt(next, names[1..], outcome, y);
      match LastFor(names[1..], y)
      case Some(i) =>
        assert names[1..][i] == names[i + 1];
      case None =>
    }
  }

  /** When no file fails, each year's entry comes from the last file taken with that
      year (listing order decides), and a year no file has keeps its earlier entry. */
  lemma LastWriterWins(store: Store, names: seq<string>, outcome: Outcome)
    requires FirstFailure(names, outcome).None?
    ensures forall y, i :: LastFor(names, y) == Some(i) ==>
      y in LoadAll(store, names, outcome).store &&
      outcome(names[i]) == Ok(LoadAll(store, names, outcome).store[y])
    ensures forall y :: LastFor(names, y).None? ==>
      (y in LoadAll(store, names, outcome).store <==> y in store) &&
      (y in store ==> LoadAll(store, names, outcome).store[y] == store[y])
  {
    forall y ensures match LastFor(names, y)
      case Some(i) => (y in LoadAll(store, names, outcome).store &&
                       outcome(names[i]) == Ok(LoadAll(store, names, outcome).store[y]))
      case None => ((y in LoadAll(store, names, outcome).store <==> y in store) &&
                    (y in store ==> LoadAll(store, names, outcome).store[y] == store[y]))
    {
      LastWriterAt(store, names, outcome, y);
    }
  }

  /** The writes a listing makes, up to its first failing file. */
  function Writes(names: seq<string>, outcome: Outcome): Store
    decreases |names|
  {
    if |names| == 0 then map[]
    else match MatchYear(names[0])
      case None => Writes(names[1..], outcome)
      case Some(year) =>
        match outcome(names[0])
        case Err(_) => map[]
        case Ok(table) => map[year := table] + Writes(names[1..], outcome)
  }

  /** Loading lays the listing's writes over the store, whatever the store held. */
  lemma {:induction false} LoadAllOverlays(store: Store, names: seq<string>, outcome: Outcome)
    ensures LoadAll(store, names, outcome).store == store + Writes(names, outcome)
    decreases |names|
  {
    if |names| > 0 {
      match ProcessFile(store, names[0], outcome)
      case Err(_) =>
        assert Writes(names, outcome) == map[];
      case Ok(next) =>
        LoadAllOverlays(next, names[1..], outcome);
        if MatchYear(names[0]).Some? {
          var year := MatchYear(names[0]).value;
          var table := outcome(names[0]).value;
          assert next == store[year := table];
          OverlayUpdate(store, year, table, Writes(names[1..], outcome));
        }
    }
  }

  /** Updating one entry and then overlaying equals overlaying the update together with the rest. */
  lemma OverlayUpdate(store: Store, year: nat, table: YearTable, rest: Store)
    ensures store[year := table] + rest == store + (map[year := table] + rest)
  {
  }

  /** Whether and where loading fails does not depend on what the store held. */
  lemma {:induction false} FailureIgnoresStore(s1: Store, s2: Store, names: seq<string>, outcome: Outcome)
    ensures LoadAll(s1, names, outcome).failure == LoadAll(s2, names, outcome).failure
    decreases |names|
  {
    if |names| > 0 && Fine(names[0], outcome) {
      FailureIgnoresStore(ProcessFile(s1, names[0], outcome).value, ProcessFile(s2, names[0], outcome).value, names[1..], outcome);
    }
  }

  /** Loading the same listing of unchanged files again changes nothing more. */
  lemma LoadAllIdempotent(store: Store, names: seq<string>, outcome: Outcome)
    ensures var once := LoadAll(store, names, outcome);
      LoadAll(once.store, names, outcome) == once
  {
    var once := LoadAll(store, names, outcome);
    LoadAllOverlays(store, names, outcome);
    LoadAllOverlays(once.store, names, outcome);
    FailureIgnoresStore(store, once.store, names, outcome);
    var w := Writes(names, outcome);
    assert (store + w) + w == store + w;
  }

  predicate Increasing(s: seq<nat>) {
    forall j, j' :: 0 <= j < j' < |s| ==> s[j] < s[j']
  }

  /** The years of the plotting list that have an entry, in plotting order. */
  function PresentYears(years: seq<nat>, store: Store): (r: seq<nat>)
    ensures forall y :: y in r <==> y in years && y in store
    ensures |r| <= |years|
    ensures Increasing(years) ==> Increasing(r)
    decreases |years|
  {
    if |years| == 0 then []
    else
      var rest := PresentYears(years[1..], store);
      assert forall y :: y in years[1..] ==> y in years;
      assert Increasing(years) ==> Increasing(years[1..]);
      if years[0] in store then
        var r := [years[0]] + rest;
        assert Increasing(years) ==> Increasing(r) by {
          if Increasing(years) {
            forall j | 0 <= j < |rest| ensures years[0] < rest[j] {
              assert rest[j] in years[1..];
              var k :| 0 <= k < |years[1..]| && years[1..][k] == rest[j];
              assert years[k + 1] == rest[j];
            }
            forall j, j' | 0 <= j < j' < |r| ensures r[j] < r[j'] {
              if j > 0 {
                assert r[j] == rest[j - 1] && r[j'] == rest[j' - 1];
              } else {
                assert r[j'] == rest[j' - 1];
              }
            }
          }
        }
        r
      else
        rest
  }

  /** The store the loader fills: `general_work_data_yearly`. */
  class WorkDataStore {
    var yearly: Store

    /** The store starts empty. */
    constructor ()
      ensures yearly == map[]
    {
      yearly := map[];
    }

    /** `load_and_process_all_data`: runs the directory loop over the listing `names`,
        reading each taken file through `read`, and writes into the store. */
    method LoadAndProcessAllData(names: seq<string>, read: string -> Sheet) returns (failure: Option<FileFailure>)
      modifies this
      ensures LoadOutcome(yearly, failure) == LoadAll(old(yearly), names, Outcomes(read))
    {
      for i := 0 to |names|
        invariant LoadAll(old(yearly), names, Outcomes(read)) == LoadAll(yearly, names[i..], Outcomes(read))
      {
        assert names[i..][1..] == names[i + 1..];
        var name := names[i];
        match MatchYear(name) {
          case None =>
          case Some(year) =>
            var table := NormaliseSheet(read(name));
            if table.Err? {
              return Some(FileFailure(name, table.error));
            }
            yearly := yearly[year := table.value];
        }
      }
      failure := None;
    }

    /** The plotting loop: for each plotting year that has an entry, in order, its table
        (the program sums the table's two value columns; the sums are not modelled). */
    method YearSeries() returns (series: seq<YearTable>)
      ensures |series| == |PresentYears(Years, yearly)|
      ensures forall j :: 0 <= j < |series| ==> series[j] == yearly[PresentYears(Years, yearly)[j]]
    {
      series := [];
      ghost var present: seq<nat> := [];
      for i := 0 to |Years|
        invariant present == PresentYears(Years[..i], yearly)
        invariant TablesOf(series, present, yearly)
      {
        PresentYearsPrefix(Years, i, yearly);
        if Years[i] in yearly {
          TablesOfSnoc(series, present, yearly, Years[i]);
          series := series + [yearly[Years[i]]];
          present := present + [Years[i]];
        }
      }
      assert Years[..|Years|] == Years;
    }
  }

  /** `series` lists the stored tables of the years in `present`, position by position. */
  predicate TablesOf(series: seq<YearTable>, present: seq<nat>, store: Store) {
    |series| == |present| &&
    forall j :: 0 <= j < |series| ==> present[j] in store && series[j] == store[present[j]]
  }

  /** Appending a stored year and its table keeps the two lists in step. */
  lemma TablesOfSnoc(series: seq<YearTable>, present: seq<nat>, store: Store, y: nat)
    requires TablesOf(series, present, store) && y in store
    ensures TablesOf(series + [store[y]], present + [y], store)
  {
  }

  /** One more plotting year taken from the list appends it exactly when it has an entry. */
  lemma PresentYearsPrefix(years: seq<nat>, i: nat, store: Store)
    requires i < |years|
    ensures PresentYears(years[..i + 1], store) ==
            PresentYears(years[..i], store) + (if years[i] in store then [years[i]] else [])
  {
    PresentYearsSnoc(years[..i], years[i], store);
    assert years[..i + 1] == years[..i] + [years[i]];
  }

  /** Adding one more plotting year appends it exactly when it has an entry. */
  lemma {:induction false} PresentYearsSnoc(years: seq<nat>, y: nat, store: Store)
    ensures PresentYears(years + [y], store) ==
            PresentYears(years, store) + (if y in store then [y] else [])
    decreases |years|
  {
    if |years| > 0 {
      assert (years + [y])[1..] == years[1..] + [y];
      PresentYearsSnoc(years[1..], y, store);
    }
  }

  /** Of the four plotting years, those with an entry, each once and in order:
      the series has one element per such year. */
  lemma PresentYearsOfPlot(store: Store)
    ensures forall y :: y in PresentYears(Years, store) <==> y in Years && y in store
    ensures Increasing(PresentYears(Years, store))
    ensures |PresentYears(Years, store)| == |set y | y in Years && y in store|
  {
    var r := PresentYears(Years, store);
    var s := set y | y in Years && y in store;
    DistinctCard(r);
    assert Elements(r) == s;
  }

  function Elements(r: seq<nat>): set<nat> {
    set y | y in r
  }

  /** A strictly increasing sequence has as many elements as its set of elements. */
  lemma {:induction false} DistinctCard(r: seq<nat>)
    requires Increasing(r)
    ensures |Elements(r)| == |r|
    decreases |r|
  {
    if |r| > 0 {
      var tail := r[1..];
      assert Increasing(tail) by {
        forall j, j' | 0 <= j < j' < |tail| ensures tail[j] < tail[j'] {
          assert tail[j] == r[j + 1] && tail[j'] == r[j' + 1];
        }
      }
      DistinctCard(tail);
      assert r[0] !in tail by {
        forall k | 0 <= k < |tail| ensures r[0] < tail[k] {
          assert tail[k] == r[k + 1];
        }
      }
      assert r == [r[0]] + tail;
      assert Elements(r) == {r[0]} + Elements(tail);
    }
  }
}
