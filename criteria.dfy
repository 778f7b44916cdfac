/**
 * The filter registry's entries, shared by both applications: one criterion
 * per column, holding what its widgets hold (the dropdown value, the entry
 * text, the listbox options and selection, the confirmed-selection label),
 * and the construction of a search plan from the registry in its order.
 */
module Criteria {

  import opened Wrappers
  import opened Strings
  import opened Tables
  import opened Narrowing

  /** The dropdown sentinel meaning "no value chosen". */
  const Unset: string := "Select"

  datatype Kind = DropdownKind | TextKind | MultiChoiceKind | CombinedKind

  /** One registry entry: the widget state of one column's filter. */
  datatype Filter =
    | Dropdown(options: seq<string>, choice: string)
    | Text(entry: string)
    | MultiChoice(options: seq<string>, selection: set<nat>, confirmed: string)
    | Combined(options: seq<string>, choice: string, entry: string)

  function KindOf(f: Filter): Kind
  {
    match f
    case Dropdown(_, _) => DropdownKind
    case Text(_) => TextKind
    case MultiChoice(_, _, _) => MultiChoiceKind
    case Combined(_, _, _) => CombinedKind
  }

  /**
   * What the widgets allow: a read-only combobox holds the sentinel or one of
   * its options, and a listbox selects among its own items.
   */
  predicate WellFormedFilter(f: Filter)
  {
    match f
    case Dropdown(options, choice) => choice == Unset || choice in options
    case Text(_) => true
    case MultiChoice(options, selection, _) => forall i :: i in selection ==> i < |options|
    case Combined(options, choice, _) => choice == Unset || choice in options
  }

  /** The registry invariant: one entry per listed column, and nothing else. */
  predicate RegistryValid(order: seq<string>, filters: map<string, Filter>)
  {
    && NoDup(order)
    && (forall c :: c in order ==> c in filters)
    && (forall c :: c in filters ==> c in order)
    && (forall c :: c in filters ==> WellFormedFilter(filters[c]))
  }

  /** The registry after `entry(k)` has been put under `names[k]` for each `k < n` in turn, starting empty. */
  function Registering(names: seq<string>, entry: nat -> Filter, n: nat): map<string, Filter>
    requires n <= |names|
  {
    if n == 0 then map[] else Registering(names, entry, n - 1)[names[n - 1] := entry(n - 1)]
  }

  /** Its keys are the first `n` names. */
  lemma {:induction false} RegisteringKeys(names: seq<string>, entry: nat -> Filter, n: nat)
    requires n <= |names|
    ensures forall c :: c in Registering(names, entry, n) <==> c in names[..n]
  {
    if n > 0 {
      RegisteringKeys(names, entry, n - 1);
      assert names[..n] == names[..n - 1] + [names[n - 1]];
    }
  }

  /** With distinct names, the entry under each name is the one computed from that name's position. */
  lemma {:induction false} RegisteringValues(names: seq<string>, entry: nat -> Filter, n: nat)
    requires NoDup(names) && n <= |names|
    ensures forall c :: c in Registering(names, entry, n) ==> c in names && Registering(names, entry, n)[c] == entry(IndexOf(names, c))
  {
    RegisteringKeys(names, entry, n);
    if n > 0 {
      RegisteringValues(names, entry, n - 1);
      RegisteringKeys(names, entry, n - 1);
      forall c | c in Registering(names, entry, n)
        ensures c in names && Registering(names, entry, n)[c] == entry(IndexOf(names, c))
      {
        assert c in names[..n];
        if c == names[n - 1] {
          assert IndexOf(names, c) == n - 1;
        }
      }
    }
  }

  /**
   * One pass over the registry's columns in order, replacing each column's
   * entry by `f` of it; the keys, and any entry not listed, stay as they were.
   */
  method UpdateEach(columns: seq<string>, m: map<string, Filter>, f: Filter -> Filter) returns (r: map<string, Filter>)
    requires NoDup(columns)
    requires forall j :: 0 <= j < |columns| ==> columns[j] in m
    ensures r.Keys == m.Keys
    ensures forall j :: 0 <= j < |columns| ==> r[columns[j]] == f(m[columns[j]])
    ensures forall c :: c in m && c !in columns ==> r[c] == m[c]
  {
    r := m;
    var i := 0;
    while i < |columns|
      invariant 0 <= i <= |columns|
      invariant r.Keys == m.Keys
      invariant forall j :: 0 <= j < i ==> r[columns[j]] == f(m[columns[j]])
      invariant forall j :: i <= j < |columns| ==> r[columns[j]] == m[columns[j]]
      invariant forall c :: c in m && c !in columns ==> r[c] == m[c]
    {
      r := r[columns[i] := f(r[columns[i]])];
      i := i + 1;
    }
  }

  /** `[listbox.get(i) for i in listbox.curselection()]`: the selected items, in listbox order. */
  function SelectedValues(options: seq<string>, selection: set<nat>): (vs: seq<string>)
    ensures |vs| <= |options|
    ensures forall v :: v in vs <==> exists i :: 0 <= i < |options| && i in selection && options[i] == v
    ensures NoDup(options) ==> NoDup(vs)
    ensures IsSubseq(vs, options)
  {
    if options == [] then []
    else
      var n := |options| - 1;
      var init := SelectedValues(options[..n], selection);
      assert forall i :: 0 <= i < n ==> options[..n][i] == options[i];
      assert NoDup(options) ==> NoDup(options[..n]) && options[n] !in init;
      assert options == options[..n] + [options[n]];
      if n in selection then
        SubseqSnoc(init, options[..n], options[n]);
        init + [options[n]]
      else
        SubseqOfLonger(init, options[..n], options[n]);
        init
  }

  // ---------------------------------------------------------------------------
  // The per-widget steps of a search

  /** A dropdown narrows by exact equality unless it shows the sentinel. */
  function ChoiceSteps(column: string, choice: string): seq<Step>
  {
    if choice == Unset then [] else [Step(column, Equals(choice))]
  }

  /** An entry narrows by containment of its stripped text, unless that is empty. */
  function EntrySteps(column: string, entry: string): seq<Step>
  {
    var value := Strip(entry);
    if value == "" then [] else [Step(column, ContainsText(value))]
  }

  /**
   * A listbox narrows by membership in its confirmed values, the label split
   * on ", ", unless the first of them is empty (which an empty label gives).
   */
  function ConfirmedSteps(column: string, confirmedText: string): seq<Step>
  {
    var values := Split(confirmedText);
    if values[0] == "" then [] else [Step(column, OneOf(values))]
  }

  /** The criterion imposes nothing: sentinel dropdown, blank entry, nothing confirmed. */
  predicate Neutral(f: Filter)
  {
    match f
    case Dropdown(_, choice) => choice == Unset
    case Text(entry) => Strip(entry) == ""
    case MultiChoice(_, _, confirmed) => Split(confirmed)[0] == ""
    case Combined(_, choice, entry) => choice == Unset && Strip(entry) == ""
  }

  /** Whether a cell satisfies an entry's criterion, stated per kind. */
  predicate Admits(f: Filter, cell: Cell)
  {
    var text := ToStr(cell);
    match f
    case Dropdown(_, choice) => choice == Unset || text == choice
    case Text(entry) => Strip(entry) == "" || ContainsIgnoreCase(text, Strip(entry))
    case MultiChoice(_, _, confirmed) => Split(confirmed)[0] == "" || text in Split(confirmed)
    case Combined(_, choice, entry) =>
      (choice == Unset || text == choice) && (Strip(entry) == "" || ContainsIgnoreCase(text, Strip(entry)))
  }

  lemma ChoiceStepsMeaning(header: seq<string>, x: Row, column: string, choice: string)
    requires column in header
    ensures RowPasses(header, x, ChoiceSteps(column, choice)) <==>
            (choice == Unset || ToStr(CellAt(x, IndexOf(header, column))) == choice)
  {
    if choice != Unset {
      assert ChoiceSteps(column, choice) == [Step(column, Equals(choice))];
      RowPassesSingle(header, x, Step(column, Equals(choice)));
    }
  }

  lemma EntryStepsMeaning(header: seq<string>, x: Row, column: string, entry: string)
    requires column in header
    ensures RowPasses(header, x, EntrySteps(column, entry)) <==>
            (Strip(entry) == "" || ContainsIgnoreCase(ToStr(CellAt(x, IndexOf(header, column))), Strip(entry)))
  {
    if Strip(entry) != "" {
      assert EntrySteps(column, entry) == [Step(column, ContainsText(Strip(entry)))];
      RowPassesSingle(header, x, Step(column, ContainsText(Strip(entry))));
    }
  }

  lemma ConfirmedStepsMeaning(header: seq<string>, x: Row, column: string, confirmedText: string)
    requires column in header
    ensures RowPasses(header, x, ConfirmedSteps(column, confirmedText)) <==>
            (Split(confirmedText)[0] == "" || ToStr(CellAt(x, IndexOf(header, column))) in Split(confirmedText))
  {
    if Split(confirmedText)[0] != "" {
      assert ConfirmedSteps(column, confirmedText) == [Step(column, OneOf(Split(confirmedText)))];
      RowPassesSingle(header, x, Step(column, OneOf(Split(confirmedText))));
    }
  }

  /** The plan of a registry: each column's steps, in registry order. */
  function Plan(order: seq<string>, filters: map<string, Filter>,
                stepsOf: (string, Filter) -> seq<Step>): seq<Step>
    requires forall c :: c in order ==> c in filters
  {
    if order == [] then []
    else
      var last := order[|order| - 1];
      Plan(order[..|order| - 1], filters, stepsOf) + stepsOf(last, filters[last])
  }

  lemma {:induction false} PlanSteps(order: seq<string>, filters: map<string, Filter>,
                                     stepsOf: (string, Filter) -> seq<Step>, s: Step)
    requires forall c :: c in order ==> c in filters
    ensures s in Plan(order, filters, stepsOf) <==> exists c :: c in order && s in stepsOf(c, filters[c])
  {
    if order != [] {
      var init := order[..|order| - 1];
      PlanSteps(init, filters, stepsOf, s);
      assert order == init + [order[|order| - 1]];
    }
  }

  /** A row passes a plan iff it passes each column's steps. */
  lemma PlanPasses(header: seq<string>, x: Row, order: seq<string>, filters: map<string, Filter>,
                   stepsOf: (string, Filter) -> seq<Step>)
    requires forall c :: c in order ==> c in filters
    ensures RowPasses(header, x, Plan(order, filters, stepsOf)) <==>
            forall c :: c in order ==> RowPasses(header, x, stepsOf(c, filters[c]))
  {
    forall s ensures s in Plan(order, filters, stepsOf) <==> exists c :: c in order && s in stepsOf(c, filters[c]) {
      PlanSteps(order, filters, stepsOf, s);
    }
  }

  /**
   * Order-independence: listing the same columns in another order gives the
   * same search outcome, except possibly for which missing column is named.
   */
  lemma PlanOrderFree(t: Table, o1: seq<string>, o2: seq<string>, filters: map<string, Filter>,
                      stepsOf: (string, Filter) -> seq<Step>)
    requires forall c :: c in o1 ==> c in filters
    requires forall c :: c in o1 <==> c in o2
    ensures Apply(t, Plan(o1, filters, stepsOf)).MissingColumn? <==>
            Apply(t, Plan(o2, filters, stepsOf)).MissingColumn?
    ensures Apply(t, Plan(o1, filters, stepsOf)).Filtered? ==>
            Apply(t, Plan(o2, filters, stepsOf)) == Apply(t, Plan(o1, filters, stepsOf))
  {
    forall s ensures s in Plan(o1, filters, stepsOf) <==> s in Plan(o2, filters, stepsOf) {
      PlanSteps(o1, filters, stepsOf, s);
      PlanSteps(o2, filters, stepsOf, s);
    }
    ApplySameSteps(t, Plan(o1, filters, stepsOf), Plan(o2, filters, stepsOf));
  }

  lemma {:induction false} NeutralPlanIsEmpty(order: seq<string>, filters: map<string, Filter>,
                                              stepsOf: (string, Filter) -> seq<Step>)
    requires forall c :: c in order ==> c in filters && stepsOf(c, filters[c]) == []
    ensures Plan(order, filters, stepsOf) == []
  {
    if order != [] {
      NeutralPlanIsEmpty(order[..|order| - 1], filters, stepsOf);
    }
  }

  /** When every criterion is neutral the search gives back the whole table. */
  lemma NeutralSearchIsIdentity(t: Table, order: seq<string>, filters: map<string, Filter>,
                                stepsOf: (string, Filter) -> seq<Step>)
    requires forall c :: c in order ==> c in filters && stepsOf(c, filters[c]) == []
    requires !IsEmpty(t)
    ensures Apply(t, Plan(order, filters, stepsOf)) == Filtered(t.rows)
  {
    NeutralPlanIsEmpty(order, filters, stepsOf);
    SelectNeutral(t.rows, t.header, []);
  }

  // ---------------------------------------------------------------------------
  // How the search loop walks the plan

  lemma PlanSnoc(order: seq<string>, filters: map<string, Filter>,
                 stepsOf: (string, Filter) -> seq<Step>, i: nat)
    requires i < |order| && forall c :: c in order ==> c in filters
    ensures Plan(order[..i + 1], filters, stepsOf) ==
            Plan(order[..i], filters, stepsOf) + stepsOf(order[i], filters[order[i]])
  {
    assert order[..i + 1][..i] == order[..i];
  }

  lemma {:induction false} PlanAppend(a: seq<string>, b: seq<string>, filters: map<string, Filter>,
                                      stepsOf: (string, Filter) -> seq<Step>)
    requires forall c :: c in a + b ==> c in filters
    ensures Plan(a + b, filters, stepsOf) == Plan(a, filters, stepsOf) + Plan(b, filters, stepsOf)
  {
    if b == [] {
      assert a + b == a;
    } else {
      var init, last := b[..|b| - 1], b[|b| - 1];
      var ab := a + b;
      assert ab[..|ab| - 1] == a + init && ab[|ab| - 1] == last;
      assert b[..|b| - 1] == init;
      assert forall c :: c in a + init ==> c in ab;
      PlanAppend(a, init, filters, stepsOf);
      var tail := stepsOf(last, filters[last]);
      assert Plan(ab, filters, stepsOf) == Plan(a + init, filters, stepsOf) + tail;
      assert Plan(b, filters, stepsOf) == Plan(init, filters, stepsOf) + tail;
    }
  }

  /** The first active criterion on a column the table lacks is the one the search reports. */
  lemma PlanMissingAt(header: seq<string>, order: seq<string>, filters: map<string, Filter>,
                      stepsOf: (string, Filter) -> seq<Step>, i: nat)
    requires i < |order| && forall c :: c in order ==> c in filters
    requires FirstMissing(header, Plan(order[..i], filters, stepsOf)).None?
    requires FirstMissing(header, stepsOf(order[i], filters[order[i]])) == Some(order[i])
    ensures FirstMissing(header, Plan(order, filters, stepsOf)) == Some(order[i])
  {
    PlanSnoc(order, filters, stepsOf, i);
    assert order == order[..i + 1] + order[i + 1..];
    PlanAppend(order[..i + 1], order[i + 1..], filters, stepsOf);
    FirstMissingAppend(header, Plan(order[..i], filters, stepsOf), stepsOf(order[i], filters[order[i]]));
    FirstMissingAppend(header, Plan(order[..i + 1], filters, stepsOf), Plan(order[i + 1..], filters, stepsOf));
  }
}
