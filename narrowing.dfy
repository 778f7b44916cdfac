/**
 * The search composer's core: a search is a plan of per-column row tests,
 * each applied (in the source) as one boolean-mask narrowing of the running
 * result. `Select` is the order-free meaning of a plan: the rows that pass
 * every test, in table order.
 */
module Narrowing {

  import opened Wrappers
  import opened Strings
  import opened Tables

  /** The three row tests pandas is asked for, on the cell's text. */
  datatype CellTest =
    | Equals(value: string)           // `df[col].astype(str) == value`
    | ContainsText(pattern: string)   // `df[col].astype(str).str.contains(pattern, case=False)`
    | OneOf(values: seq<string>)      // `df[col].astype(str).isin(values)`

  predicate Holds(test: CellTest, c: Cell)
  {
    match test
    case Equals(v) => ToStr(c) == v
    case ContainsText(p) => ContainsIgnoreCase(ToStr(c), p)
    case OneOf(vs) => ToStr(c) in vs
  }

  /** One narrowing step: a test on the named column. */
  datatype Step = Step(column: string, test: CellTest)

  predicate StepHolds(header: seq<string>, r: Row, s: Step)
  {
    s.column in header && Holds(s.test, CellAt(r, IndexOf(header, s.column)))
  }

  predicate RowPasses(header: seq<string>, r: Row, plan: seq<Step>)
  {
    forall s :: s in plan ==> StepHolds(header, r, s)
  }

  lemma RowPassesSingle(header: seq<string>, r: Row, s: Step)
    ensures RowPasses(header, r, [s]) <==> StepHolds(header, r, s)
  {
    assert s in [s];
  }

  lemma RowPassesAppend(header: seq<string>, r: Row, p: seq<Step>, q: seq<Step>)
    ensures RowPasses(header, r, p + q) <==> RowPasses(header, r, p) && RowPasses(header, r, q)
  {
  }

  /** `a` is `b` with some elements deleted: the order of what is kept is kept. */
  predicate IsSubseq<T(==)>(a: seq<T>, b: seq<T>)
    decreases |b|
  {
    a == [] || (b != [] && ((a[0] == b[0] && IsSubseq(a[1..], b[1..])) || IsSubseq(a, b[1..])))
  }

  /** One narrowing: `filtered_df[<test on column k>]`. */
  function KeepIf(rows: seq<Row>, k: nat, test: CellTest): seq<Row>
  {
    if rows == [] then []
    else (if Holds(test, CellAt(rows[0], k)) then [rows[0]] else []) + KeepIf(rows[1..], k, test)
  }

  /** The rows of `rows` that pass every step of `plan`, in their order. */
  function Select(rows: seq<Row>, header: seq<string>, plan: seq<Step>): seq<Row>
  {
    if rows == [] then []
    else (if RowPasses(header, rows[0], plan) then [rows[0]] else []) + Select(rows[1..], header, plan)
  }

  /** The column of the first step whose column is not in the table, if any. */
  function FirstMissing(header: seq<string>, plan: seq<Step>): (r: Option<string>)
    ensures r.None? <==> forall s :: s in plan ==> s.column in header
    ensures r.Some? ==> r.value !in header && exists s :: s in plan && s.column == r.value
  {
    if plan == [] then None
    else if plan[0].column !in header then Some(plan[0].column)
    else FirstMissing(header, plan[1..])
  }

  /** Outcome of a search. */
  datatype SearchResult =
    | InputRequired                 // no table loaded: nothing is filtered
    | MissingColumn(column: string) // pandas' KeyError on an active criterion
    | Filtered(rows: seq<Row>)      // possibly empty: an empty result is no error

  /** The meaning of running `plan` against `t`. */
  function Apply(t: Table, plan: seq<Step>): SearchResult
  {
    if IsEmpty(t) then InputRequired
    else match FirstMissing(t.header, plan)
      case Some(c) => MissingColumn(c)
      case None => Filtered(Select(t.rows, t.header, plan))
  }

  // ---------------------------------------------------------------------------
  // What Select means

  /** The result holds exactly the passing rows, each as often as in the table. */
  lemma {:induction false} SelectCount(rows: seq<Row>, header: seq<string>, plan: seq<Step>, x: Row)
    ensures multiset(Select(rows, header, plan))[x] ==
            if RowPasses(header, x, plan) then multiset(rows)[x] else 0
  {
    if rows != [] {
      SelectCount(rows[1..], header, plan, x);
      assert rows == [rows[0]] + rows[1..];
    }
  }

  lemma SelectMembers(rows: seq<Row>, header: seq<string>, plan: seq<Step>, x: Row)
    ensures x in Select(rows, header, plan) <==> x in rows && RowPasses(header, x, plan)
  {
    SelectCount(rows, header, plan, x);
    assert x in rows <==> multiset(rows)[x] > 0;
    assert x in Select(rows, header, plan) <==> multiset(Select(rows, header, plan))[x] > 0;
  }

  lemma {:induction false} SubseqOfTail<T>(a: seq<T>, b: seq<T>, x: T)
    requires IsSubseq(a, b)
    ensures IsSubseq(a, [x] + b)
  {
    assert ([x] + b)[1..] == b;
  }

  /** A subsequence stays one when more elements follow. */
  lemma {:induction false} SubseqOfLonger<T>(a: seq<T>, b: seq<T>, x: T)
    requires IsSubseq(a, b)
    ensures IsSubseq(a, b + [x])
    decreases |b|
  {
    if a != [] {
      assert (b + [x])[1..] == b[1..] + [x];
      if a[0] == b[0] && IsSubseq(a[1..], b[1..]) {
        SubseqOfLonger(a[1..], b[1..], x);
      } else {
        SubseqOfLonger(a, b[1..], x);
      }
    }
  }

  /** Appending the same element to both keeps a subsequence one. */
  lemma {:induction false} SubseqSnoc<T>(a: seq<T>, b: seq<T>, x: T)
    requires IsSubseq(a, b)
    ensures IsSubseq(a + [x], b + [x])
    decreases |b|
  {
    if a == [] {
      if b != [] {
        assert (b + [x])[1..] == b[1..] + [x];
        SubseqSnoc(a, b[1..], x);
        assert a + [x] == [x];
      }
    } else {
      assert (b + [x])[1..] == b[1..] + [x];
      assert (a + [x])[1..] == a[1..] + [x];
      if a[0] == b[0] && IsSubseq(a[1..], b[1..]) {
        SubseqSnoc(a[1..], b[1..], x);
      } else {
        SubseqSnoc(a, b[1..], x);
      }
    }
  }

  /** The result is a subsequence of the table: source order is preserved. */
  lemma {:induction false} SelectSubseq(rows: seq<Row>, header: seq<string>, plan: seq<Step>)
    ensures IsSubseq(Select(rows, header, plan), rows)
  {
    if rows != [] {
      var rest := Select(rows[1..], header, plan);
      SelectSubseq(rows[1..], header, plan);
      if RowPasses(header, rows[0], plan) {
        assert Select(rows, header, plan) == [rows[0]] + rest;
        assert ([rows[0]] + rest)[1..] == rest;
      } else {
        assert Select(rows, header, plan) == rest;
        SubseqOfTail(rest, rows[1..], rows[0]);
        assert rows == [rows[0]] + rows[1..];
      }
    }
  }

  /** A plan every row passes excludes nothing; the empty plan is one. */
  lemma {:induction false} SelectNeutral(rows: seq<Row>, header: seq<string>, plan: seq<Step>)
    requires forall r :: r in rows ==> RowPasses(header, r, plan)
    ensures Select(rows, header, plan) == rows
  {
    if rows != [] {
      SelectNeutral(rows[1..], header, plan);
      assert rows == [rows[0]] + rows[1..];
    }
  }

  /** Only which steps a plan holds matters, not their order or repetition. */
  lemma {:induction false} SelectSameSteps(rows: seq<Row>, header: seq<string>, p: seq<Step>, q: seq<Step>)
    requires forall s :: s in p <==> s in q
    ensures Select(rows, header, p) == Select(rows, header, q)
  {
    if rows != [] {
      SelectSameSteps(rows[1..], header, p, q);
      assert RowPasses(header, rows[0], p) == RowPasses(header, rows[0], q);
    }
  }

  /** Narrowing by `p` and then by `q` is narrowing by both at once. */
  lemma {:induction false} SelectThenSelect(rows: seq<Row>, header: seq<string>, p: seq<Step>, q: seq<Step>)
    ensures Select(Select(rows, header, p), header, q) == Select(rows, header, p + q)
  {
    if rows != [] {
      var r, tail := rows[0], rows[1..];
      SelectThenSelect(tail, header, p, q);
      var sel := Select(tail, header, p);
      assert RowPasses(header, r, p + q) == (RowPasses(header, r, p) && RowPasses(header, r, q));
      assert Select(rows, header, p + q) ==
             (if RowPasses(header, r, p + q) then [r] else []) + Select(tail, header, p + q);
      if RowPasses(header, r, p) {
        var both := [r] + sel;
        assert Select(rows, header, p) == both;
        assert both[0] == r && both[1..] == sel;
        assert Select(both, header, q) ==
               (if RowPasses(header, r, q) then [r] else []) + Select(sel, header, q);
      } else {
        assert Select(rows, header, p) == sel;
        assert Select(rows, header, p + q) == Select(tail, header, p + q);
      }
    }
  }

  /** Conjunction: a row is selected by `p + q` iff both `p` alone and `q` alone select it. */
  lemma SelectConjunction(rows: seq<Row>, header: seq<string>, p: seq<Step>, q: seq<Step>, x: Row)
    ensures x in Select(rows, header, p + q) <==>
            x in Select(rows, header, p) && x in Select(rows, header, q)
  {
    SelectMembers(rows, header, p + q, x);
    SelectMembers(rows, header, p, x);
    SelectMembers(rows, header, q, x);
    assert RowPasses(header, x, p + q) == (RowPasses(header, x, p) && RowPasses(header, x, q));
  }

  /**
   * The stepwise narrowing the source performs agrees with Select: one more
   * mask on the running result is one more step of the plan.
   */
  lemma {:induction false} KeepIfExtends(rows: seq<Row>, header: seq<string>, plan: seq<Step>, s: Step)
    requires s.column in header
    ensures KeepIf(Select(rows, header, plan), IndexOf(header, s.column), s.test) ==
            Select(rows, header, plan + [s])
  {
    var k := IndexOf(header, s.column);
    if rows != [] {
      var r, tail := rows[0], rows[1..];
      KeepIfExtends(tail, header, plan, s);
      var sel := Select(tail, header, plan);
      assert RowPasses(header, r, plan + [s]) == (RowPasses(header, r, plan) && StepHolds(header, r, s));
      assert Select(rows, header, plan + [s]) ==
             (if RowPasses(header, r, plan + [s]) then [r] else []) + Select(tail, header, plan + [s]);
      if RowPasses(header, r, plan) {
        var both := [r] + sel;
        assert Select(rows, header, plan) == both;
        assert both[0] == r && both[1..] == sel;
        assert KeepIf(both, k, s.test) ==
               (if Holds(s.test, CellAt(r, k)) then [r] else []) + KeepIf(sel, k, s.test);
      } else {
        assert Select(rows, header, plan) == sel;
        assert Select(rows, header, plan + [s]) == Select(tail, header, plan + [s]);
      }
    }
  }

  lemma {:induction false} FirstMissingAppend(header: seq<string>, p: seq<Step>, q: seq<Step>)
    ensures FirstMissing(header, p + q) ==
            if FirstMissing(header, p).Some? then FirstMissing(header, p) else FirstMissing(header, q)
  {
    if p != [] {
      assert (p + q)[1..] == p[1..] + q;
      FirstMissingAppend(header, p[1..], q);
    } else {
      assert p + q == q;
    }
  }

  /**
   * Order-independence: two plans holding the same steps give the same
   * rows; only the column named in a KeyError may differ.
   */
  lemma ApplySameSteps(t: Table, p: seq<Step>, q: seq<Step>)
    requires forall s :: s in p <==> s in q
    ensures Apply(t, p).InputRequired? <==> Apply(t, q).InputRequired?
    ensures Apply(t, p).MissingColumn? <==> Apply(t, q).MissingColumn?
    ensures Apply(t, p).Filtered? ==> Apply(t, q) == Apply(t, p)
  {
    SelectSameSteps(t.rows, t.header, p, q);
  }

  /** A successful search result is a subsequence of the table, of passing rows only. */
  lemma ApplyResult(t: Table, plan: seq<Step>)
    requires Apply(t, plan).Filtered?
    ensures IsSubseq(Apply(t, plan).rows, t.rows)
    ensures forall x :: x in Apply(t, plan).rows <==> x in t.rows && RowPasses(t.header, x, plan)
  {
    SelectSubseq(t.rows, t.header, plan);
    forall x ensures x in Apply(t, plan).rows <==> x in t.rows && RowPasses(t.header, x, plan) {
      SelectMembers(t.rows, t.header, plan, x);
    }
  }

  /** One mask `filtered_df[<test on column>]`, which raises KeyError (None here) for an absent column. */
  method Mask(header: seq<string>, rows: seq<Row>, column: string, test: CellTest) returns (r: Option<seq<Row>>)
    ensures r.None? <==> column !in header
    ensures r.Some? ==> r.value == Select(rows, header, [Step(column, test)])
  {
    if column !in header {
      return None;
    }
    SelectNeutral(rows, header, []);
    KeepIfExtends(rows, header, [], Step(column, test));
    assert [] + [Step(column, test)] == [Step(column, test)];
    return Some(KeepIf(rows, IndexOf(header, column), test));
  }
}
