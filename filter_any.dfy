/**
 * The general-purpose filter (FilterAny.py): one filter per column of
 * whatever table is loaded, chosen by how many distinct values the column
 * holds: a free-text entry for a column with many, a listbox of its values
 * with a confirm button for one with few. Confirming replaces the label;
 * the search narrows the table column by column as in the stock filter.
 */
module FilterAny {

  import opened Wrappers
  import opened Strings
  import opened Tables
  import opened Narrowing
  import opened Criteria

  /** A column with more distinct values than this gets a text entry instead of a listbox. */
  const TextThreshold: nat := 20

  /**
   * The filter initialisation makes for a column: a blank entry when the
   * column holds more than twenty distinct non-missing values, otherwise a
   * listbox of exactly those values, each once, nothing selected or confirmed.
   */
  function Classify(cells: seq<Cell>): Filter
  {
    var uniqueValues := Distinct(cells);
    if |uniqueValues| > TextThreshold then Text("") else MultiChoice(uniqueValues, {}, "")
  }

  /** The filter `initialize_filters` picks for the column at each position of `t`. */
  function ColumnFilters(t: Table): nat -> Filter
  {
    (k: nat) => Classify(Column(t, k))
  }

  /** Registering one more column adds that column's own classification under a name not yet present. */
  lemma ColumnFiltersStep(t: Table, i: nat)
    requires NoDup(t.header) && i < |t.header|
    ensures t.header[i] !in Registering(t.header, ColumnFilters(t), i)
    ensures t.header[i] !in t.header[..i]
    ensures var uniqueValues := Distinct(Column(t, i));
            Registering(t.header, ColumnFilters(t), i + 1)
            == Registering(t.header, ColumnFilters(t), i)[t.header[i] := if |uniqueValues| > TextThreshold then Text("") else MultiChoice(uniqueValues, {}, "")]
    ensures t.header[..i + 1] == t.header[..i] + [t.header[i]]
  {
    RegisteringKeys(t.header, ColumnFilters(t), i);
  }

  /** Once every column is registered, each column's filter is the classification of its own cells. */
  lemma ColumnFiltersMeaning(t: Table)
    requires NoDup(t.header)
    ensures var m := Registering(t.header, ColumnFilters(t), |t.header|);
            forall c :: c in m ==> c in t.header && m[c] == Classify(Column(t, IndexOf(t.header, c)))
  {
    RegisteringValues(t.header, ColumnFilters(t), |t.header|);
  }

  /**
   * What `Classify` picks: an entry exactly when the column holds more than
   * twenty distinct non-missing values, otherwise a listbox of exactly those
   * values, each once.
   */
  lemma ClassifyMeaning(cells: seq<Cell>)
    ensures var f := Classify(cells);
            && (f.Text? || f.MultiChoice?)
            && (f.Text? <==> |ValueSet(cells)| > TextThreshold)
            && (f.Text? ==> f.entry == "")
            && (f.MultiChoice? ==>
                  && NoDup(f.options)
                  && (forall x :: x in f.options <==> x in ValueSet(cells))
                  && f.selection == {} && f.confirmed == "")
  {
    DistinctCount(cells);
  }

  // ---------------------------------------------------------------------------
  // The per-column tests of `search_data`

  /**
   * The narrowing steps one registry entry contributes: an entry by its
   * stripped text, a listbox by its confirmed values; the loop has no branch
   * for any other widget.
   */
  function AnySteps(column: string, f: Filter): (steps: seq<Step>)
    ensures forall s :: s in steps ==> s.column == column
  {
    match f
    case Text(entry) => EntrySteps(column, entry)
    case MultiChoice(_, _, confirmed) => ConfirmedSteps(column, confirmed)
    case _ => []
  }

  /** The widgets this application creates. */
  predicate EntryOrListbox(f: Filter)
  {
    f.Text? || f.MultiChoice?
  }

  /** An entry or listbox contributes a step exactly when it is not neutral, and then tests its own column. */
  lemma NeutralMeansNoSteps(column: string, f: Filter)
    requires EntryOrListbox(f)
    ensures Neutral(f) <==> AnySteps(column, f) == []
    ensures !Neutral(f) ==> |AnySteps(column, f)| == 1 && AnySteps(column, f)[0].column == column
  {
  }

  /** The steps of an entry or listbox hold on a row exactly when it admits the row's cell. */
  lemma StepsMeanAdmits(header: seq<string>, x: Row, column: string, f: Filter)
    requires column in header && EntryOrListbox(f)
    ensures RowPasses(header, x, AnySteps(column, f)) <==> Admits(f, CellAt(x, IndexOf(header, column)))
  {
    match f
    case Text(entry) =>
      EntryStepsMeaning(header, x, column, entry);
    case MultiChoice(_, _, confirmed) =>
      ConfirmedStepsMeaning(header, x, column, confirmed);
  }

  /**
   * With one entry or listbox per column of a non-empty table, the search
   * never reports a missing column: it returns exactly the table's rows, in
   * table order, whose cells every entry admits.
   */
  lemma SearchMeaning(t: Table, order: seq<string>, filters: map<string, Filter>, x: Row)
    requires forall c :: c in order ==> c in filters && c in t.header && EntryOrListbox(filters[c])
    requires !IsEmpty(t)
    ensures Apply(t, Plan(order, filters, AnySteps)).Filtered?
    ensures IsSubseq(Apply(t, Plan(order, filters, AnySteps)).rows, t.rows)
    ensures x in Apply(t, Plan(order, filters, AnySteps)).rows <==>
            x in t.rows && forall c :: c in order ==> Admits(filters[c], CellAt(x, IndexOf(t.header, c)))
  {
    var plan := Plan(order, filters, AnySteps);
    forall s | s in plan ensures s.column in t.header {
      PlanSteps(order, filters, AnySteps, s);
    }
    ApplyResult(t, plan);
    PlanPasses(t.header, x, order, filters, AnySteps);
    forall c | c in order
      ensures RowPasses(t.header, x, AnySteps(c, filters[c])) <==> Admits(filters[c], CellAt(x, IndexOf(t.header, c)))
    {
      StepsMeanAdmits(t.header, x, c, filters[c]);
    }
  }

  /** The search outcome does not depend on the order the registry lists its columns in. */
  lemma SearchOrderFree(t: Table, o1: seq<string>, o2: seq<string>, filters: map<string, Filter>)
    requires forall c :: c in o1 ==> c in filters
    requires forall c :: c in o1 <==> c in o2
    ensures Apply(t, Plan(o1, filters, AnySteps)).Filtered? ==>
            Apply(t, Plan(o2, filters, AnySteps)) == Apply(t, Plan(o1, filters, AnySteps))
  {
    PlanOrderFree(t, o1, o2, filters, AnySteps);
  }

  /** Right after loading, every filter is neutral and a search returns the whole table. */
  lemma InitialSearchIsIdentity(t: Table, order: seq<string>, filters: map<string, Filter>)
    requires forall c :: c in order ==> c in t.header && c in filters
    requires forall c :: c in order ==> filters[c] == Classify(Column(t, IndexOf(t.header, c)))
    requires !IsEmpty(t)
    ensures Apply(t, Plan(order, filters, AnySteps)) == Filtered(t.rows)
  {
    SplitEmpty();
    NeutralSearchIsIdentity(t, order, filters, AnySteps);
  }

  // ---------------------------------------------------------------------------
  // Confirming and resetting

  /**
   * `confirm_selection` replaces the label with the selected values joined by
   * ", ". Nothing selected gives an empty label and a neutral listbox; a
   * selection whose values hold no ", " reads back as exactly those values,
   * so the listbox then admits exactly the cells whose text is one of them
   * (unless the first of them is the empty string, which leaves it neutral).
   */
  lemma ConfirmMeaning(options: seq<string>, selection: set<nat>)
    requires forall v :: v in SelectedValues(options, selection) ==> !Contains(v, Sep)
    ensures var selected := SelectedValues(options, selection);
            var f := MultiChoice(options, selection, Join(selected));
            && (selected == [] ==> f.confirmed == "" && Neutral(f))
            && (selected != [] ==> Split(f.confirmed) == selected)
            && (selected != [] && selected[0] != "" ==>
                  !Neutral(f) && forall cell :: Admits(f, cell) <==> ToStr(cell) in selected)
  {
    var selected := SelectedValues(options, selection);
    SplitEmpty();
    if selected != [] {
      SplitJoin(selected);
    }
  }

  /**
   * The first loop of `reset_filters`, per widget: a StringVar back to the
   * sentinel, an entry emptied, a listbox's selection cleared with its label
   * left for the second loop. There is no branch for a combined entry, so one
   * would be left alone (this application never makes one).
   */
  function ResetWidget(f: Filter): (r: Filter)
    ensures KindOf(r) == KindOf(f)
    ensures !r.Text? ==> r.options == f.options
    ensures WellFormedFilter(f) ==> WellFormedFilter(r)
    ensures r.Dropdown? || r.Text? ==> Neutral(r)
    ensures r.MultiChoice? ==> r.selection == {} && r.confirmed == f.confirmed
    ensures r.Combined? ==> r == f
  {
    match f
    case Dropdown(options, _) => Dropdown(options, Unset)
    case Text(_) => Text("")
    case MultiChoice(options, _, confirmed) => MultiChoice(options, {}, confirmed)
    case Combined(_, _, _) => f
  }

  /** The second loop of `reset_filters`: every confirmed-selection label emptied, which makes a listbox neutral. */
  function ClearLabel(f: Filter): (r: Filter)
    ensures KindOf(r) == KindOf(f)
    ensures r.MultiChoice? ==> Neutral(r) && r.options == f.options && r.selection == f.selection
    ensures !r.MultiChoice? ==> r == f
  {
    SplitEmpty();
    match f
    case MultiChoice(options, selection, _) => MultiChoice(options, selection, "")
    case _ => f
  }

  /** A reset entry or listbox is neutral, of the same kind, with the same options, well formed. */
  lemma ResetMeaning(f: Filter)
    requires EntryOrListbox(f)
    ensures Neutral(ClearLabel(ResetWidget(f)))
    ensures KindOf(ClearLabel(ResetWidget(f))) == KindOf(f)
    ensures f.MultiChoice? ==> ClearLabel(ResetWidget(f)) == MultiChoice(f.options, {}, "")
    ensures WellFormedFilter(ClearLabel(ResetWidget(f)))
  {
    SplitEmpty();
  }

  /**
   * The two passes of `reset_filters`: every widget reset, then every label
   * emptied; together they reset each listed entry and keep a registry of
   * entries and listboxes one.
   */
  method ResetPasses(order: seq<string>, filters: map<string, Filter>) returns (labelsCleared: map<string, Filter>)
    requires RegistryValid(order, filters) && forall c :: c in filters ==> EntryOrListbox(filters[c])
    ensures labelsCleared.Keys == filters.Keys
    ensures forall c :: c in filters ==> labelsCleared[c] == ClearLabel(ResetWidget(filters[c]))
    ensures RegistryValid(order, labelsCleared) && forall c :: c in labelsCleared ==> EntryOrListbox(labelsCleared[c])
  {
    var widgetsReset := UpdateEach(order, filters, ResetWidget);
    labelsCleared := UpdateEach(order, widgetsReset, ClearLabel);
    forall c | c in filters
      ensures labelsCleared[c] == ClearLabel(ResetWidget(filters[c]))
      ensures WellFormedFilter(labelsCleared[c]) && EntryOrListbox(labelsCleared[c])
    {
      var j :| 0 <= j < |order| && order[j] == c;
      ResetMeaning(filters[c]);
    }
  }

  /** Reset restores neutrality: a search right after it returns the whole table. */
  lemma ResetSearchIsIdentity(t: Table, order: seq<string>, filters: map<string, Filter>)
    requires forall c :: c in order ==> c in filters && EntryOrListbox(filters[c])
    requires !IsEmpty(t)
    ensures Apply(t, Plan(order, map c | c in filters :: ClearLabel(ResetWidget(filters[c])), AnySteps))
            == Filtered(t.rows)
  {
    var reset := map c | c in filters :: ClearLabel(ResetWidget(filters[c]));
    forall c | c in order ensures c in reset && AnySteps(c, reset[c]) == [] {
      ResetMeaning(filters[c]);
      NeutralMeansNoSteps(c, reset[c]);
    }
    NeutralSearchIsIdentity(t, order, reset, AnySteps);
  }

  // ---------------------------------------------------------------------------
  // The search loop

  /** The body of the search loop for one entry: narrow `rows` by its active test. */
  method NarrowColumn(header: seq<string>, rows: seq<Row>, column: string, f: Filter) returns (r: Option<seq<Row>>)
    ensures r.None? <==> FirstMissing(header, AnySteps(column, f)).Some?
    ensures r.Some? ==> r.value == Select(rows, header, AnySteps(column, f))
  {
    SelectNeutral(rows, header, []);
    match f {
      case Text(entry) =>
        var value := Strip(entry);
        if value != "" {
          r := Mask(header, rows, column, ContainsText(value));
        } else {
          r := Some(rows);
        }
      case MultiChoice(_, _, confirmed) =>
        var confirmedValues := Split(confirmed);
        if confirmedValues[0] != "" {
          r := Mask(header, rows, column, OneOf(confirmedValues));
        } else {
          r := Some(rows);
        }
      case Dropdown(_, _) =>
        r := Some(rows);
      case Combined(_, _, _) =>
        r := Some(rows);
    }
  }

  /**
   * `search_data`'s filtering: start from the table's rows and, for each
   * registry entry in order, narrow by that entry's active test.
   */
  method RunSearch(df: Table, order: seq<string>, filters: map<string, Filter>) returns (r: SearchResult)
    requires forall c :: c in order ==> c in filters
    ensures r == Apply(df, Plan(order, filters, AnySteps))
  {
    if IsEmpty(df) {
      return InputRequired;
    }
    var filtered := df.rows;
    var i := 0;
    SelectNeutral(df.rows, df.header, []);
    assert order[..0] == [];
    while i < |order|
      invariant 0 <= i <= |order|
      invariant FirstMissing(df.header, Plan(order[..i], filters, AnySteps)).None?
      invariant filtered == Select(df.rows, df.header, Plan(order[..i], filters, AnySteps))
    {
      var column := order[i];
      ghost var done := Plan(order[..i], filters, AnySteps);
      PlanSnoc(order, filters, AnySteps, i);
      var narrowed := NarrowColumn(df.header, filtered, column, filters[column]);
      if narrowed.None? {
        FirstMissingAppend(df.header, done, AnySteps(column, filters[column]));
        PlanMissingAt(df.header, order, filters, AnySteps, i);
        return MissingColumn(column);
      }
      SelectThenSelect(df.rows, df.header, done, AnySteps(column, filters[column]));
      FirstMissingAppend(df.header, done, AnySteps(column, filters[column]));
      filtered := narrowed.value;
      i := i + 1;
    }
    assert order[..i] == order;
    return Filtered(filtered);
  }

  // ---------------------------------------------------------------------------
  // The application's state

  class WarehouseFilterApp {
    /** The loaded table (`self.df`). */
    var df: Table
    /** The registry's columns, in insertion order (the keys of `filter_widgets`). */
    var order: seq<string>
    /** The registry: each column's widget state (`filter_widgets` with `confirmed_selections`). */
    var filters: map<string, Filter>
    /** The table the results grid shows, if one was created (`results_table`). */
    var results: Option<Table>

    /** A registry of entries and listboxes only, one per listed column. */
    ghost predicate Registered()
      reads this
    {
      RegistryValid(order, filters) && forall c :: c in filters ==> EntryOrListbox(filters[c])
    }

    /** Between user actions the registry has one filter per column of the table, in column order. */
    ghost predicate Valid()
      reads this
    {
      Registered() && order == df.header
    }

    constructor ()
      ensures Valid()
      ensures df == Table([], []) && order == [] && filters == map[] && results == None
    {
      df := Table([], []);
      order := [];
      filters := map[];
      results := None;
    }

    /**
     * `load_file`: `chosen` is the table read from the file picked, None when
     * the dialog is cancelled; the reader gives every column a distinct name.
     */
    method LoadFile(chosen: Option<Table>)
      requires Valid()
      requires chosen.Some? ==> NoDup(chosen.value.header)
      modifies this`df, this`order, this`filters
      ensures Valid()
      ensures chosen.None? ==> df == old(df) && order == old(order) && filters == old(filters)
      ensures chosen.Some? ==> df == chosen.value
      ensures chosen.Some? ==> forall c :: c in filters ==> filters[c] == Classify(Column(df, IndexOf(df.header, c)))
    {
      if chosen.Some? {
        df := chosen.value;
        InitializeFilters();
      }
    }

    /** `clear_filters`: the registry is emptied. */
    method ClearFilters()
      modifies this`order, this`filters
      ensures Registered() && order == [] && filters == map[]
    {
      order := [];
      filters := map[];
    }

    /** Store `f` under `column`; a Python dict keeps an existing key in its place. */
    method Put(column: string, f: Filter)
      requires Registered() && EntryOrListbox(f) && WellFormedFilter(f)
      modifies this`order, this`filters
      ensures Registered()
      ensures filters == old(filters)[column := f]
      ensures order == if column in old(filters) then old(order) else old(order) + [column]
    {
      if column !in filters {
        order := order + [column];
      }
      filters := filters[column := f];
    }

    /** `add_text_filter`: an empty entry. */
    method AddTextFilter(column: string)
      requires Registered()
      modifies this`order, this`filters
      ensures Registered()
      ensures filters == old(filters)[column := Text("")]
      ensures order == if column in old(filters) then old(order) else old(order) + [column]
    {
      Put(column, Text(""));
    }

    /** `add_multichoice_filter`: a listbox of `options`, nothing selected, an empty label. */
    method AddMultichoiceFilter(column: string, options: seq<string>)
      requires Registered()
      modifies this`order, this`filters
      ensures Registered()
      ensures filters == old(filters)[column := MultiChoice(options, {}, "")]
      ensures order == if column in old(filters) then old(order) else old(order) + [column]
    {
      Put(column, MultiChoice(options, {}, ""));
    }

    /**
     * `initialize_filters`: discard the registry, then give each column of the
     * table, in column order, the filter `Classify` picks for its cells.
     */
    method InitializeFilters()
      requires NoDup(df.header)
      modifies this`order, this`filters
      ensures Valid()
      ensures forall c :: c in filters ==> filters[c] == Classify(Column(df, IndexOf(df.header, c)))
    {
      ClearFilters();
      var i := 0;
      while i < |df.header|
        invariant 0 <= i <= |df.header|
        invariant Registered() && order == df.header[..i] && filters == Registering(df.header, ColumnFilters(df), i)
      {
        AddColumnFilter(i);
        i := i + 1;
      }
      assert df.header[..i] == df.header;
      ColumnFiltersMeaning(df);
    }

    /** One pass of the loop in `initialize_filters`: the filter for the column at position `i`. */
    method AddColumnFilter(i: nat)
      requires i < |df.header| && NoDup(df.header)
      requires Registered() && order == df.header[..i] && filters == Registering(df.header, ColumnFilters(df), i)
      modifies this`order, this`filters
      ensures Registered() && order == df.header[..i + 1] && filters == Registering(df.header, ColumnFilters(df), i + 1)
    {
      var column := df.header[i];
      ColumnFiltersStep(df, i);
      var uniqueValues := Distinct(Column(df, i));
      if |uniqueValues| > TextThreshold {
        AddTextFilter(column);
      } else {
        AddMultichoiceFilter(column, uniqueValues);
      }
    }

    /** The user edits an entry. */
    method TypeText(column: string, text: string)
      requires Valid() && column in filters && filters[column].Text?
      modifies this`filters
      ensures Valid() && filters == old(filters)[column := Text(text)]
    {
      filters := filters[column := Text(text)];
    }

    /** The user changes which listbox items are selected (not yet confirmed). */
    method SelectItems(column: string, selection: set<nat>)
      requires Valid() && column in filters && filters[column].MultiChoice?
      requires forall i :: i in selection ==> i < |filters[column].options|
      modifies this`filters
      ensures Valid() && filters == old(filters)[column := old(filters)[column].(selection := selection)]
    {
      filters := filters[column := filters[column].(selection := selection)];
    }

    /** `confirm_selection`: the label becomes the selected values joined by ", ", replacing what it held. */
    method ConfirmSelection(column: string)
      requires Valid() && column in filters && filters[column].MultiChoice?
      modifies this`filters
      ensures Valid()
      ensures var f := old(filters)[column];
              filters == old(filters)[column := f.(confirmed := Join(SelectedValues(f.options, f.selection)))]
    {
      var f := filters[column];
      var selectedValues := SelectedValues(f.options, f.selection);
      filters := filters[column := f.(confirmed := Join(selectedValues))];
    }

    /**
     * `reset_filters`: a first pass resets every widget, a second empties
     * every confirmed-selection label; the columns and kinds are kept.
     */
    method ResetFilters()
      requires Valid()
      modifies this`filters
      ensures Valid()
      ensures filters.Keys == old(filters).Keys
      ensures forall c :: c in filters ==> filters[c] == ClearLabel(ResetWidget(old(filters)[c]))
    {
      filters := ResetPasses(order, filters);
    }

    /** `display_results`: an empty result leaves the previous grid object in place. */
    method DisplayResults(rows: seq<Row>)
      modifies this`results
      ensures results == if IsEmpty(Table(df.header, rows)) then old(results) else Some(Table(df.header, rows))
    {
      if !IsEmpty(Table(df.header, rows)) {
        results := Some(Table(df.header, rows));
      }
    }

    /**
     * `search_data`: compose the search, then show its result; the registry
     * is left as it was, and no column is ever reported missing.
     */
    method SearchData() returns (r: SearchResult)
      requires Valid()
      modifies this`results
      ensures r == Apply(df, Plan(order, filters, AnySteps))
      ensures r.InputRequired? <==> IsEmpty(df)
      ensures !r.MissingColumn?
      ensures r.Filtered? && r.rows != [] ==> results == Some(Table(df.header, r.rows))
      ensures !(r.Filtered? && r.rows != []) ==> results == old(results)
    {
      r := RunSearch(df, order, filters);
      if !IsEmpty(df) {
        SearchMeaning(df, order, filters, []);
      }
      if r.Filtered? {
        DisplayResults(r.rows);
      }
    }

    /** `download_results`: what would be written, or None ("No results to download"). */
    method DownloadResults() returns (exported: Option<Table>)
      ensures exported == results
    {
      exported := results;
    }

    /** `clear_results`. */
    method ClearResults()
      modifies this`results
      ensures results == None
    {
      results := None;
    }
  }
}
