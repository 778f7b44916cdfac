/**
 * The warehouse stock filter (FilterStocks.py): nine hard-coded column
 * filters of four kinds, a confirm button that accumulates listbox
 * selections, a reset, and a search that narrows the loaded table column by
 * column. Widgets are replaced by the registry entries they stand for.
 */
module FilterStocks {

  import opened Wrappers
  import opened Strings
  import opened Tables
  import opened Narrowing
  import opened Criteria

  /** The registry's columns, in the order `initialize_filters` adds them. */
  const Columns: seq<string> :=
    ["ValA", "Material", "Material description", "Long text", "L/O",
     "Manufacturer name", "MPN", "Mfr", "BUn"]

  /** The fixed choices of the ValA dropdown. */
  const ValAOptions: seq<string> := ["8100", "8200"]

  /** The columns whose options initialisation reads from the table, in reading order. */
  const OptionColumns: seq<string> := ["L/O", "Manufacturer name", "Mfr", "BUn"]

  /** `list(df[name].dropna().unique())`. */
  function ColumnOptions(t: Table, name: string): seq<string>
    requires name in t.header
  {
    Distinct(Column(t, IndexOf(t.header, name)))
  }

  /** Whether the `k`-th entry reads its options from the table: L/O, Manufacturer name, Mfr and BUn. */
  predicate ReadsOptions(k: nat)
  {
    k == 4 || k == 5 || k == 7 || k == 8
  }

  lemma OptionColumnsAt()
    ensures OptionColumns == [Columns[4], Columns[5], Columns[7], Columns[8]]
  {
  }

  /** The `k`-th entry initialisation creates, with its options read from `t`. */
  function InitialFilter(t: Table, k: nat): (f: Filter)
    requires k < |Columns|
    requires ReadsOptions(k) ==> Columns[k] in t.header
    ensures WellFormedFilter(f)
  {
    if k == 0 then Dropdown(ValAOptions, Unset)
    else if k == 4 || k == 5 || k == 8 then MultiChoice(ColumnOptions(t, Columns[k]), {}, "")
    else if k == 7 then Combined(ColumnOptions(t, Columns[k]), Unset, "")
    else Text("")
  }

  /** Every freshly made entry is neutral, so a search right after loading returns the whole table. */
  lemma InitialFilterNeutral(t: Table, k: nat)
    requires k < |Columns|
    requires ReadsOptions(k) ==> Columns[k] in t.header
    ensures Neutral(InitialFilter(t, k))
  {
    SplitEmpty();
  }

  // ---------------------------------------------------------------------------
  // The per-column tests of `search_data`

  /** The narrowing steps one entry contributes, as the search loop's branches apply them. */
  function SearchSteps(column: string, f: Filter): (steps: seq<Step>)
    ensures forall s :: s in steps ==> s.column == column
  {
    match f
    case Dropdown(_, choice) => ChoiceSteps(column, choice)
    case Text(entry) => EntrySteps(column, entry)
    case MultiChoice(_, _, confirmed) => ConfirmedSteps(column, confirmed)
    case Combined(_, choice, entry) => ChoiceSteps(column, choice) + EntrySteps(column, entry)
  }

  /** A neutral criterion contributes no step and admits every cell; an active one contributes a step. */
  lemma NeutralMeansNoSteps(column: string, f: Filter)
    ensures Neutral(f) <==> SearchSteps(column, f) == []
    ensures Neutral(f) ==> forall cell :: Admits(f, cell)
  {
  }

  /** The steps of an entry hold on a row exactly when the entry admits the row's cell. */
  lemma StepsMeanAdmits(header: seq<string>, x: Row, column: string, f: Filter)
    requires column in header
    ensures RowPasses(header, x, SearchSteps(column, f)) <==> Admits(f, CellAt(x, IndexOf(header, column)))
  {
    var cell := CellAt(x, IndexOf(header, column));
    match f
    case Dropdown(_, choice) =>
      ChoiceStepsMeaning(header, x, column, choice);
    case Text(entry) =>
      EntryStepsMeaning(header, x, column, entry);
    case MultiChoice(_, _, confirmed) =>
      ConfirmedStepsMeaning(header, x, column, confirmed);
    case Combined(_, choice, entry) =>
      RowPassesAppend(header, x, ChoiceSteps(column, choice), EntrySteps(column, entry));
      ChoiceStepsMeaning(header, x, column, choice);
      EntryStepsMeaning(header, x, column, entry);
  }

  /**
   * A search that succeeds returns exactly the table's rows, in table order,
   * whose cells every entry admits; an active entry names a column of the table.
   */
  lemma SearchMeaning(t: Table, order: seq<string>, filters: map<string, Filter>, x: Row)
    requires forall c :: c in order ==> c in filters
    requires Apply(t, Plan(order, filters, SearchSteps)).Filtered?
    ensures IsSubseq(Apply(t, Plan(order, filters, SearchSteps)).rows, t.rows)
    ensures forall c :: c in order && !Neutral(filters[c]) ==> c in t.header
    ensures x in Apply(t, Plan(order, filters, SearchSteps)).rows <==>
            x in t.rows &&
            forall c :: c in order && c in t.header ==> Admits(filters[c], CellAt(x, IndexOf(t.header, c)))
  {
    var plan := Plan(order, filters, SearchSteps);
    ApplyResult(t, plan);
    forall c | c in order && !Neutral(filters[c]) ensures c in t.header {
      NeutralMeansNoSteps(c, filters[c]);
      var s := SearchSteps(c, filters[c])[0];
      PlanSteps(order, filters, SearchSteps, s);
    }
    PlanPasses(t.header, x, order, filters, SearchSteps);
    forall c | c in order
      ensures RowPasses(t.header, x, SearchSteps(c, filters[c])) <==>
              (c in t.header ==> Admits(filters[c], CellAt(x, IndexOf(t.header, c))))
    {
      NeutralMeansNoSteps(c, filters[c]);
      if c in t.header {
        StepsMeanAdmits(t.header, x, c, filters[c]);
      }
    }
  }

  /** `reset_filters` on one entry: sentinel, empty entry, nothing selected, empty label. */
  function ResetFilter(f: Filter): (r: Filter)
    ensures Neutral(r)
    ensures KindOf(r) == KindOf(f)
    ensures WellFormedFilter(r)
    ensures !r.Text? ==> r.options == f.options
    ensures r.Dropdown? || r.Combined? ==> r.choice == Unset
    ensures r.Text? || r.Combined? ==> r.entry == ""
    ensures r.MultiChoice? ==> r.selection == {} && r.confirmed == ""
  {
    SplitEmpty();
    match f
    case Dropdown(options, _) => Dropdown(options, Unset)
    case Text(_) => Text("")
    case MultiChoice(options, _, _) => MultiChoice(options, {}, "")
    case Combined(options, _, _) => Combined(options, Unset, "")
  }

  /** Reset restores neutrality: a search right after it returns the whole table. */
  lemma ResetSearchIsIdentity(t: Table, order: seq<string>, filters: map<string, Filter>)
    requires forall c :: c in order ==> c in filters
    requires !IsEmpty(t)
    ensures Apply(t, Plan(order, map c | c in filters :: ResetFilter(filters[c]), SearchSteps)) == Filtered(t.rows)
  {
    var reset := map c | c in filters :: ResetFilter(filters[c]);
    forall c | c in order ensures c in reset && SearchSteps(c, reset[c]) == [] {
      NeutralMeansNoSteps(c, reset[c]);
    }
    NeutralSearchIsIdentity(t, order, reset, SearchSteps);
  }

  /** The search outcome does not depend on the order the registry lists its columns in. */
  lemma SearchOrderFree(t: Table, o1: seq<string>, o2: seq<string>, filters: map<string, Filter>)
    requires forall c :: c in o1 ==> c in filters
    requires forall c :: c in o1 <==> c in o2
    ensures Apply(t, Plan(o1, filters, SearchSteps)).Filtered? ==>
            Apply(t, Plan(o2, filters, SearchSteps)) == Apply(t, Plan(o1, filters, SearchSteps))
  {
    PlanOrderFree(t, o1, o2, filters, SearchSteps);
  }

  // ---------------------------------------------------------------------------
  // Confirming a listbox selection

  /** `merged` lists each element of `s` exactly once. */
  predicate Enumerates(merged: seq<string>, s: set<string>)
  {
    NoDup(merged) && (forall v :: v in merged ==> v in s) && (forall v :: v in s ==> v in merged)
  }

  /** `list(s)` for a Python set: its elements once each, in an order the set chooses. */
  method SetToSeq(s: set<string>) returns (r: seq<string>)
    ensures Enumerates(r, s)
  {
    r := [];
    var rest := s;
    while rest != {}
      invariant rest <= s
      invariant NoDup(r)
      invariant forall v :: v in r ==> v in s && v !in rest
      invariant forall v :: v in s ==> v in r || v in rest
      decreases |rest|
    {
      var v :| v in rest;
      r := r + [v];
      rest := rest - {v};
    }
  }

  /**
   * After a confirm that merges a new selection into a non-empty label, the
   * confirmed values are the union of the old ones and the newly selected
   * ones, each once, as long as no selected value contains ", ".
   */
  lemma ConfirmedUnion(current: string, selected: seq<string>, merged: seq<string>)
    requires current != ""
    requires forall v :: v in selected ==> !Contains(v, Sep)
    requires Enumerates(merged, set v | v in Split(current) + selected)
    ensures Split(Join(merged)) == merged
    ensures NoDup(Split(Join(merged)))
    ensures forall v :: v in Split(Join(merged)) <==> v in Split(current) || v in selected
  {
    SplitPiecesHaveNoSep(current);
    var first := Split(current)[0];
    assert first in Split(current) + selected;
    assert first in (set v | v in Split(current) + selected);
    assert first in merged;
    SplitJoin(merged);
  }

  // ---------------------------------------------------------------------------
  // The search loop

  /** The body of the search loop for one entry: narrow `rows` by its active tests. */
  method NarrowColumn(header: seq<string>, rows: seq<Row>, column: string, f: Filter) returns (r: Option<seq<Row>>)
    ensures r.None? <==> FirstMissing(header, SearchSteps(column, f)).Some?
    ensures r.Some? ==> r.value == Select(rows, header, SearchSteps(column, f))
  {
    SelectNeutral(rows, header, []);
    match f {
      case Dropdown(_, value) =>
        if value != Unset {
          r := Mask(header, rows, column, Equals(value));
        } else {
          r := Some(rows);
        }
      case Text(entry) =>
        var value := Strip(entry);
        if value != "" {
          r := Mask(header, rows, column, ContainsText(value));
        } else {
          r := Some(rows);
        }
      case MultiChoice(_, _, confirmed) =>
        var confirmedValues := Split(confirmed);
        if confirmedValues[0] != "" {
          r := Mask(header, rows, column, OneOf(confirmedValues));
        } else {
          r := Some(rows);
        }
      case Combined(_, choice, entry) =>
        var dropdownValue := choice;
        var textValue := Strip(entry);
        var first, second := ChoiceSteps(column, choice), EntrySteps(column, entry);
        var filtered := rows;
        if dropdownValue != Unset {
          var masked := Mask(header, filtered, column, Equals(dropdownValue));
          if masked.None? {
            return None;
          }
          filtered := masked.value;
        }
        assert filtered == Select(rows, header, first);
        if textValue != "" {
          var masked := Mask(header, filtered, column, ContainsText(textValue));
          if masked.None? {
            FirstMissingAppend(header, first, second);
            return None;
          }
          filtered := masked.value;
        } else {
          SelectNeutral(filtered, header, []);
        }
        SelectThenSelect(rows, header, first, second);
        FirstMissingAppend(header, first, second);
        r := Some(filtered);
    }
  }

  /**
   * `search_data`'s filtering: start from the table's rows and, for each
   * registry entry in order, narrow by that entry's active tests.
   */
  method RunSearch(df: Table, order: seq<string>, filters: map<string, Filter>) returns (r: SearchResult)
    requires forall c :: c in order ==> c in filters
    ensures r == Apply(df, Plan(order, filters, SearchSteps))
  {
    if IsEmpty(df) {
      return InputRequired;
    }
    var filtered := df.rows;
    var i := 0;
    SelectNeutral(df.rows, df.header, []);
    assert order[..0] == [];
    while i < |order|
      invariant 0 <= i <= |order|
      invariant FirstMissing(df.header, Plan(order[..i], filters, SearchSteps)).None?
      invariant filtered == Select(df.rows, df.header, Plan(order[..i], filters, SearchSteps))
    {
      var column := order[i];
      ghost var done := Plan(order[..i], filters, SearchSteps);
      PlanSnoc(order, filters, SearchSteps, i);
      var narrowed := NarrowColumn(df.header, filtered, column, filters[column]);
      if narrowed.None? {
        FirstMissingAppend(df.header, done, SearchSteps(column, filters[column]));
        PlanMissingAt(df.header, order, filters, SearchSteps, i);
        return MissingColumn(column);
      }
      SelectThenSelect(df.rows, df.header, done, SearchSteps(column, filters[column]));
      FirstMissingAppend(df.header, done, SearchSteps(column, filters[column]));
      filtered := narrowed.value;
      i := i + 1;
    }
    assert order[..i] == order;
    return Filtered(filtered);
  }

  // ---------------------------------------------------------------------------
  // Initialisation

  /** The options of every entry among the first `n` that reads them can be read from `t`. */
  predicate OptionsReadable(t: Table, n: nat)
  {
    && (n > 4 ==> Columns[4] in t.header)
    && (n > 5 ==> Columns[5] in t.header)
    && (n > 7 ==> Columns[7] in t.header)
    && (n > 8 ==> Columns[8] in t.header)
  }

  /** The registry after the first `n` lines of `initialize_filters`; its order is `Columns[..n]`. */
  function InitFilters(t: Table, n: nat): map<string, Filter>
    requires n <= |Columns| && OptionsReadable(t, n)
  {
    if n == 0 then map[] else InitFilters(t, n - 1)[Columns[n - 1] := InitialFilter(t, n - 1)]
  }

  lemma ColumnsDistinct()
    ensures NoDup(Columns)
  {
    var lengths := [4, 8, 20, 9, 3, 17, 3, 3, 3];
    assert forall i :: 0 <= i < |Columns| ==> |Columns[i]| == lengths[i];
    assert Columns[4][0] == 'L' && Columns[6][1] == 'P' && Columns[7][1] == 'f' && Columns[8][0] == 'B';
  }

  /**
   * The first `n` lines create exactly the first `n` entries, each as
   * `InitialFilter` makes it, and the registry they leave is valid.
   */
  lemma {:induction false} InitFiltersMeaning(t: Table, n: nat)
    requires n <= |Columns| && OptionsReadable(t, n)
    ensures forall c :: c in InitFilters(t, n) <==> c in Columns[..n]
    ensures forall k :: 0 <= k < n ==> InitFilters(t, n)[Columns[k]] == InitialFilter(t, k)
    ensures RegistryValid(Columns[..n], InitFilters(t, n))
  {
    InitFiltersKeys(t, n);
    InitFiltersValues(t, n);
    InitFiltersWellFormed(t, n);
    ColumnsDistinct();
  }

  lemma {:induction false} InitFiltersWellFormed(t: Table, n: nat)
    requires n <= |Columns| && OptionsReadable(t, n)
    ensures forall c :: c in InitFilters(t, n) ==> WellFormedFilter(InitFilters(t, n)[c])
  {
    if n > 0 {
      InitFiltersWellFormed(t, n - 1);
    }
  }

  lemma {:induction false} InitFiltersKeys(t: Table, n: nat)
    requires n <= |Columns| && OptionsReadable(t, n)
    ensures forall c :: c in InitFilters(t, n) <==> c in Columns[..n]
  {
    if n > 0 {
      InitFiltersKeys(t, n - 1);
      assert Columns[..n] == Columns[..n - 1] + [Columns[n - 1]];
    }
  }

  lemma {:induction false} InitFiltersValues(t: Table, n: nat)
    requires n <= |Columns| && OptionsReadable(t, n)
    ensures forall k :: 0 <= k < n ==> Columns[k] in InitFilters(t, n) && InitFilters(t, n)[Columns[k]] == InitialFilter(t, k)
  {
    if n > 0 {
      ColumnsDistinct();
      InitFiltersValues(t, n - 1);
      var prev := InitFilters(t, n - 1);
      assert InitFilters(t, n) == prev[Columns[n - 1] := InitialFilter(t, n - 1)];
      forall k | 0 <= k < n - 1
        ensures InitFilters(t, n)[Columns[k]] == InitialFilter(t, k)
      {
        assert Columns[k] != Columns[n - 1];
        assert prev[Columns[k]] == InitialFilter(t, k);
      }
    }
  }

  /** One more line adds the next entry under a column not yet registered. */
  lemma InitFiltersStep(t: Table, n: nat)
    requires n < |Columns| && OptionsReadable(t, n + 1)
    ensures OptionsReadable(t, n)
    ensures Columns[n] !in InitFilters(t, n)
    ensures InitFilters(t, n + 1) == InitFilters(t, n)[Columns[n] := InitialFilter(t, n)]
    ensures Columns[..n + 1] == Columns[..n] + [Columns[n]]
  {
    InitFiltersKeys(t, n);
    ColumnsDistinct();
    assert Columns[..n + 1] == Columns[..n] + [Columns[n]];
  }

  /** Right after initialisation every entry is neutral, so a search returns the whole table. */
  lemma InitFiltersNeutral(t: Table, n: nat)
    requires n <= |Columns| && OptionsReadable(t, n)
    ensures forall c :: c in InitFilters(t, n) ==> Neutral(InitFilters(t, n)[c])
  {
    InitFiltersMeaning(t, n);
    forall c | c in InitFilters(t, n) ensures Neutral(InitFilters(t, n)[c]) {
      var k :| 0 <= k < n && Columns[k] == c;
      InitialFilterNeutral(t, k);
    }
  }

  // ---------------------------------------------------------------------------
  // The application's state

  class WarehouseFilterApp {
    /** The loaded table (`self.df`). */
    var df: Table
    /** The registry's columns, in insertion order (the keys of `filter_widgets`). */
    var order: seq<string>
    /** The registry: each column's widget state (`filter_widgets` with `confirmed_selections`). */
    var filters: map<string, Filter>
    /** The table the results grid shows, if one was created (`results_table`). */
    var results: Option<Table>

    ghost predicate Valid()
      reads this
    {
      RegistryValid(order, filters)
    }

    constructor ()
      ensures Valid()
      ensures df == Table([], []) && order == [] && filters == map[] && results == None
    {
      df := Table([], []);
      order := [];
      filters := map[];
      results := None;
    }

    /** `load_file`: `chosen` is the table read from the file picked, None when the dialog is cancelled. */
    method LoadFile(chosen: Option<Table>) returns (missing: Option<string>)
      requires Valid()
      modifies this`df, this`order, this`filters
      ensures Valid()
      ensures chosen.None? ==> df == old(df) && order == old(order) && filters == old(filters) && missing.None?
      ensures chosen.Some? ==> df == chosen.value
      ensures chosen.Some? ==> |order| <= |Columns| && order == Columns[..|order|]
      ensures chosen.Some? ==> OptionsReadable(df, |order|) && filters == InitFilters(df, |order|)
      ensures chosen.Some? ==> (missing.None? <==> order == Columns)
      ensures chosen.Some? ==> (missing.None? <==> forall c :: c in OptionColumns ==> c in df.header)
      ensures chosen.Some? && missing.Some? ==> |order| < |Columns| && missing.value == Columns[|order|]
                                                && missing.value in OptionColumns && missing.value !in df.header
    {
      missing := None;
      if chosen.Some? {
        df := chosen.value;
        missing := InitializeFilters();
      }
    }

    /** `clear_filters`: the registry is emptied. */
    method ClearFilters()
      modifies this`order, this`filters
      ensures Valid() && order == [] && filters == map[]
    {
      order := [];
      filters := map[];
    }

    /** Store `f` under `column`; a Python dict keeps an existing key in its place. */
    method Put(column: string, f: Filter)
      requires Valid() && WellFormedFilter(f)
      modifies this`order, this`filters
      ensures Valid()
      ensures filters == old(filters)[column := f]
      ensures order == if column in old(filters) then old(order) else old(order) + [column]
    {
      if column !in filters {
        order := order + [column];
      }
      filters := filters[column := f];
    }

    /** `add_dropdown_filter`: the combobox starts on the sentinel. */
    method AddDropdownFilter(column: string, options: seq<string>)
      requires Valid()
      modifies this`order, this`filters
      ensures Valid()
      ensures filters == old(filters)[column := Dropdown(options, Unset)]
      ensures order == if column in old(filters) then old(order) else old(order) + [column]
    {
      Put(column, Dropdown(options, Unset));
    }

    /** `add_text_filter`: an empty entry. */
    method AddTextFilter(column: string)
      requires Valid()
      modifies this`order, this`filters
      ensures Valid()
      ensures filters == old(filters)[column := Text("")]
      ensures order == if column in old(filters) then old(order) else old(order) + [column]
    {
      Put(column, Text(""));
    }

    /** `add_multichoice_filter`: a listbox of `options`, nothing selected, an empty label. */
    method AddMultichoiceFilter(column: string, options: seq<string>)
      requires Valid()
      modifies this`order, this`filters
      ensures Valid()
      ensures filters == old(filters)[column := MultiChoice(options, {}, "")]
      ensures order == if column in old(filters) then old(order) else old(order) + [column]
    {
      Put(column, MultiChoice(options, {}, ""));
    }

    /** `add_combined_filter`: a combobox on the sentinel and an empty entry. */
    method AddCombinedFilter(column: string, options: seq<string>)
      requires Valid()
      modifies this`order, this`filters
      ensures Valid()
      ensures filters == old(filters)[column := Combined(options, Unset, "")]
      ensures order == if column in old(filters) then old(order) else old(order) + [column]
    {
      Put(column, Combined(options, Unset, ""));
    }

    /**
     * One line of `initialize_filters`: add the `n`-th entry with the add
     * method of its kind, its options read from the table where it has any.
     */
    method AddInitialEntry(n: nat)
      requires n < |Columns| && OptionsReadable(df, n + 1)
      requires Valid() && order == Columns[..n] && filters == InitFilters(df, n)
      modifies this`order, this`filters
      ensures Valid() && order == Columns[..n + 1] && filters == InitFilters(df, n + 1)
    {
      InitFiltersStep(df, n);
      if n == 0 {
        AddDropdownFilter(Columns[n], ValAOptions);
      } else if n == 4 || n == 5 || n == 8 {
        AddMultichoiceFilter(Columns[n], ColumnOptions(df, Columns[n]));
      } else if n == 7 {
        AddCombinedFilter(Columns[n], ColumnOptions(df, Columns[n]));
      } else {
        AddTextFilter(Columns[n]);
      }
    }

    /**
     * `initialize_filters`: discard the registry, then add the nine entries in
     * order (its nine add lines, the `n`-th adding entry `Columns[n]` through
     * `AddInitialEntry(n)`). Reading the options of a column the table lacks raises KeyError:
     * initialisation stops there, reporting that column, with the entries
     * added before it in place.
     */
    method InitializeFilters() returns (missing: Option<string>)
      modifies this`order, this`filters
      ensures Valid()
      ensures |order| <= |Columns| && order == Columns[..|order|]
      ensures OptionsReadable(df, |order|) && filters == InitFilters(df, |order|)
      ensures missing.None? <==> order == Columns
      ensures missing.None? <==> forall c :: c in OptionColumns ==> c in df.header
      ensures missing.Some? ==> |order| < |Columns| && missing.value == Columns[|order|]
                                && missing.value in OptionColumns && missing.value !in df.header
    {
      OptionColumnsAt();
      ClearFilters();
      var n := 0;
      while n < |Columns|
        invariant n <= |Columns| && OptionsReadable(df, n)
        invariant Valid() && order == Columns[..n] && filters == InitFilters(df, n)
      {
        if ReadsOptions(n) && Columns[n] !in df.header {
          return Some(Columns[n]);
        }
        AddInitialEntry(n);
        n := n + 1;
      }
      return None;
    }

    /** The user picks one of a combobox's options. */
    method ChooseOption(column: string, value: string)
      requires Valid() && column in filters
      requires (filters[column].Dropdown? || filters[column].Combined?) && value in filters[column].options
      modifies this`filters
      ensures Valid() && filters == old(filters)[column := old(filters)[column].(choice := value)]
    {
      filters := filters[column := filters[column].(choice := value)];
    }

    /** The user edits an entry. */
    method TypeText(column: string, text: string)
      requires Valid() && column in filters && (filters[column].Text? || filters[column].Combined?)
      modifies this`filters
      ensures Valid() && filters == old(filters)[column := old(filters)[column].(entry := text)]
    {
      filters := filters[column := filters[column].(entry := text)];
    }

    /** The user changes which listbox items are selected (not yet confirmed). */
    method SelectItems(column: string, selection: set<nat>)
      requires Valid() && column in filters && filters[column].MultiChoice?
      requires forall i :: i in selection ==> i < |filters[column].options|
      modifies this`filters
      ensures Valid() && filters == old(filters)[column := old(filters)[column].(selection := selection)]
    {
      filters := filters[column := filters[column].(selection := selection)];
    }

    /**
     * `confirm_selection`: a non-empty selection becomes the label, merged as
     * a set with what the label already held; an empty one changes nothing.
     */
    method ConfirmSelection(column: string)
      requires Valid() && column in filters && filters[column].MultiChoice?
      modifies this`filters
      ensures Valid()
      ensures filters.Keys == old(filters).Keys
      ensures forall c :: c in filters && c != column ==> filters[c] == old(filters)[c]
      ensures var f := old(filters)[column];
              var selected := SelectedValues(f.options, f.selection);
              && filters[column].MultiChoice?
              && filters[column] == f.(confirmed := filters[column].confirmed)
              && (selected == [] ==> filters[column].confirmed == f.confirmed)
              && (selected != [] && f.confirmed == "" ==> filters[column].confirmed == Join(selected))
              && (selected != [] && f.confirmed != "" ==>
                    exists merged :: Enumerates(merged, set v | v in Split(f.confirmed) + selected)
                                     && filters[column].confirmed == Join(merged))
    {
      var f := filters[column];
      var selectedValues := SelectedValues(f.options, f.selection);
      if selectedValues != [] {
        var currentSelections := f.confirmed;
        if currentSelections != "" {
          selectedValues := SetToSeq(set v | v in Split(currentSelections) + selectedValues);
        }
        filters := filters[column := f.(confirmed := Join(selectedValues))];
      }
    }

    /** `reset_filters`: every entry back to neutral, the columns and kinds kept. */
    method ResetFilters()
      requires Valid()
      modifies this`filters
      ensures Valid()
      ensures filters.Keys == old(filters).Keys
      ensures forall c :: c in filters ==> filters[c] == ResetFilter(old(filters)[c])
    {
      var reset := UpdateEach(order, filters, ResetFilter);
      forall c | c in filters
        ensures reset[c] == ResetFilter(filters[c])
      {
        var j :| 0 <= j < |order| && order[j] == c;
      }
      filters := reset;
    }

    /** `display_results`: an empty result leaves the previous grid object in place. */
    method DisplayResults(rows: seq<Row>)
      modifies this`results
      ensures results == if IsEmpty(Table(df.header, rows)) then old(results) else Some(Table(df.header, rows))
    {
      if !IsEmpty(Table(df.header, rows)) {
        results := Some(Table(df.header, rows));
      }
    }

    /** `search_data`: compose the search, then show its result; the registry is left as it was. */
    method SearchData() returns (r: SearchResult)
      requires Valid()
      modifies this`results
      ensures r == Apply(df, Plan(order, filters, SearchSteps))
      ensures r.Filtered? && r.rows != [] ==> results == Some(Table(df.header, r.rows))
      ensures !(r.Filtered? && r.rows != []) ==> results == old(results)
    {
      r := RunSearch(df, order, filters);
      if r.Filtered? {
        DisplayResults(r.rows);
      }
    }

    /** `download_results`: what would be written, or None ("No results to download"). */
    method DownloadResults() returns (exported: Option<Table>)
      ensures exported == results
    {
      exported := results;
    }

    /** `clear_results`. */
    method ClearResults()
      modifies this`results
      ensures results == None
    {
      results := None;
    }
  }
}
