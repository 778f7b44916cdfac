/**
 * The loaded spreadsheet as the filter engine sees it: named columns over
 * rows of cells. A cell is missing (pandas NaN) or holds a value, already in
 * the textual form that `astype(str)` gives it.
 */
module Tables {

  datatype Cell = Missing | Value(text: string)

  type Row = seq<Cell>

  datatype Table = Table(header: seq<string>, rows: seq<Row>)

  /** `astype(str)`: a missing cell reads as the text "nan". */
  function ToStr(c: Cell): string
  {
    match c
    case Missing => "nan"
    case Value(s) => s
  }

  predicate NoDup<T(==)>(s: seq<T>)
  {
    forall i, j :: 0 <= i < j < |s| ==> s[i] != s[j]
  }

  /** `DataFrame.empty`: no rows, or no columns. */
  predicate IsEmpty(t: Table)
  {
    |t.rows| == 0 || |t.header| == 0
  }

  /** The position of the column called `name`. */
  function IndexOf(header: seq<string>, name: string): (k: nat)
    requires name in header
    ensures k < |header| && header[k] == name
    ensures forall j :: 0 <= j < k ==> header[j] != name
  {
    if header[0] == name then 0 else 1 + IndexOf(header[1..], name)
  }

  /** The cell of `r` in column `k` (rows of a well-formed table have every column). */
  function CellAt(r: Row, k: nat): Cell
  {
    if k < |r| then r[k] else Missing
  }

  /** The cells of column `k`, top to bottom (`df[column]`). */
  function Column(t: Table, k: nat): seq<Cell>
  {
    seq(|t.rows|, i requires 0 <= i < |t.rows| => CellAt(t.rows[i], k))
  }

  /** The set of non-missing values among `cells`. */
  function ValueSet(cells: seq<Cell>): set<string>
  {
    set c | c in cells && c.Value? :: c.text
  }

  /**
   * `cells.dropna().unique()`: each non-missing value once, in order of first
   * appearance.
   */
  function Distinct(cells: seq<Cell>): (r: seq<string>)
    ensures NoDup(r)
    ensures forall x :: x in r <==> Value(x) in cells
    ensures forall i :: 0 <= i < |r| ==> Value(r[i]) in cells
  {
    if cells == [] then []
    else
      var prefix := cells[..|cells| - 1];
      var last := cells[|cells| - 1];
      var d := Distinct(prefix);
      assert cells == prefix + [last];
      if last.Missing? || last.text in d then d else d + [last.text]
  }

  /** The index of the first cell holding value `x`. */
  function FirstAt(cells: seq<Cell>, x: string): (k: nat)
    requires Value(x) in cells
    ensures k < |cells| && cells[k] == Value(x)
    ensures forall m :: 0 <= m < k ==> cells[m] != Value(x)
  {
    var prefix := cells[..|cells| - 1];
    assert cells == prefix + [cells[|cells| - 1]];
    if Value(x) in prefix then FirstAt(prefix, x) else |cells| - 1
  }

  lemma FirstAtSnoc(prefix: seq<Cell>, last: Cell, x: string)
    requires Value(x) in prefix
    ensures FirstAt(prefix + [last], x) == FirstAt(prefix, x)
  {
    assert (prefix + [last])[..|prefix|] == prefix;
  }

  lemma FirstAtLast(prefix: seq<Cell>, last: Cell)
    requires last.Value? && last !in prefix
    ensures FirstAt(prefix + [last], last.text) == |prefix|
  {
    assert (prefix + [last])[..|prefix|] == prefix;
  }

  /** `unique()` lists the values in the order in which they first appear. */
  lemma {:induction false} DistinctOrder(cells: seq<Cell>, i: nat, j: nat)
    requires i < j < |Distinct(cells)|
    ensures FirstAt(cells, Distinct(cells)[i]) < FirstAt(cells, Distinct(cells)[j])
  {
    var prefix := cells[..|cells| - 1];
    var last := cells[|cells| - 1];
    assert cells == prefix + [last];
    var d := Distinct(prefix);
    var r := Distinct(cells);
    assert r == d || (last.Value? && last !in prefix && r == d + [last.text]);
    assert r[i] == d[i] && Value(d[i]) in prefix;
    FirstAtSnoc(prefix, last, d[i]);
    if j < |d| {
      assert r[j] == d[j] && Value(d[j]) in prefix;
      FirstAtSnoc(prefix, last, d[j]);
      DistinctOrder(prefix, i, j);
    } else {
      FirstAtLast(prefix, last);
    }
  }

  lemma {:induction false} NoDupCard<T>(s: seq<T>)
    requires NoDup(s)
    ensures |set x | x in s| == |s|
  {
    if s != [] {
      var tail := s[1..];
      assert NoDup(tail) by {
        forall i, j | 0 <= i < j < |tail| ensures tail[i] != tail[j] {
          assert tail[i] == s[i + 1] && tail[j] == s[j + 1];
        }
      }
      NoDupCard(tail);
      assert (set x | x in s) == (set x | x in tail) + {s[0]};
      assert s[0] !in tail;
    }
  }

  /** The number of distinct non-missing values is the length of the `unique()` list. */
  lemma DistinctCount(cells: seq<Cell>)
    ensures |Distinct(cells)| == |ValueSet(cells)|
  {
    var d := Distinct(cells);
    NoDupCard(d);
    assert (set x | x in d) == ValueSet(cells);
  }
}
