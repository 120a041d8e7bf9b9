/** A table of cells: named columns of equal height, addressed by column name and row
    position. This is the part of a pandas `DataFrame` that the reconciliation pass reads
    and writes. */
module Frames {
  import opened Cells

  /** The value of a table: its column names in order, each column's cells, and the row count. */
  datatype Frame = Frame(names: seq<string>, cols: map<string, seq<Cell>>, height: nat)

  /** Every column has one cell per row. */
  ghost predicate WellFormed(f: Frame)
  {
    forall n :: n in f.cols ==> |f.cols[n]| == f.height
  }

  /** No name occurs twice. */
  predicate Distinct(names: seq<string>)
  {
    names == [] || (names[|names| - 1] !in names[..|names| - 1] && Distinct(names[..|names| - 1]))
  }

  /** `Distinct` says that the names at any two positions differ. */
  lemma {:induction false} DistinctIff(names: seq<string>)
    ensures Distinct(names) <==> forall i, j :: 0 <= i < j < |names| ==> names[i] != names[j]
  {
    if names != [] {
      var init, last := names[..|names| - 1], names[|names| - 1];
      DistinctIff(init);
      if Distinct(names) {
        forall i, j | 0 <= i < j < |names| ensures names[i] != names[j] {
          if j < |names| - 1 {
            assert names[i] == init[i] && names[j] == init[j];
          } else {
            assert names[i] in init;
          }
        }
      } else if !Distinct(init) {
        var i, j :| 0 <= i < j < |init| && init[i] == init[j];
        assert names[i] == names[j];
      } else {
        var i :| 0 <= i < |init| && init[i] == last;
        assert names[i] == names[|names| - 1];
      }
    }
  }

  /** The column order lists every column exactly once. */
  ghost predicate Listed(f: Frame)
  {
    Distinct(f.names) && forall n :: n in f.cols <==> n in f.names
  }

  /** The cell in column `n`, row `r`; a column that does not exist reads as missing, which
      is also what a column created with `pd.NA` holds. */
  function View(f: Frame, n: string, r: int): Cell
  {
    if n in f.cols && 0 <= r < |f.cols[n]| then f.cols[n][r] else Missing
  }

  /** `df.at[r, n] = v` on an existing column. */
  function WithCell(f: Frame, n: string, r: nat, v: Cell): (g: Frame)
    requires WellFormed(f) && n in f.cols && r < f.height
    ensures WellFormed(g)
    ensures g.names == f.names && g.height == f.height && g.cols.Keys == f.cols.Keys
    ensures View(g, n, r) == v
    ensures forall m, q :: (m != n || q != r) ==> View(g, m, q) == View(f, m, q)
  {
    f.(cols := f.cols[n := f.cols[n][r := v]])
  }

  /** `if n not in df.columns: df[n] = pd.NA`: the column is appended, filled with missing. */
  function WithColumn(f: Frame, n: string): (g: Frame)
    requires WellFormed(f)
    ensures WellFormed(g)
    ensures n in g.cols
    ensures g.height == f.height && g.cols.Keys == f.cols.Keys + {n}
    ensures g.names == if n in f.cols then f.names else f.names + [n]
    ensures forall m, q :: View(g, m, q) == View(f, m, q)
  {
    if n in f.cols then f
    else Frame(f.names + [n], f.cols[n := seq(f.height, _ => Missing)], f.height)
  }

  /** Writing back the value a cell already holds changes nothing. */
  lemma WithCellSame(f: Frame, n: string, r: nat)
    requires WellFormed(f) && n in f.cols && r < f.height
    ensures WithCell(f, n, r, View(f, n, r)) == f
  {
    assert f.cols[n][r := f.cols[n][r]] == f.cols[n];
    assert f.cols[n := f.cols[n]] == f.cols;
  }

  /** Writing a cell keeps the column order. */
  lemma WithCellListed(f: Frame, n: string, r: nat, v: Cell)
    requires WellFormed(f) && Listed(f) && n in f.cols && r < f.height
    ensures Listed(WithCell(f, n, r, v))
  {
  }

  /** A name new to the table, appended to its order and to its columns, keeps it listed. */
  lemma ListedAppend(names: seq<string>, keys: set<string>, n: string)
    requires Distinct(names) && (forall m :: m in keys <==> m in names)
    requires n !in keys
    ensures Distinct(names + [n]) && (forall m :: m in keys + {n} <==> m in names + [n])
  {
    assert (names + [n])[..|names|] == names;
  }

  /** Adding a column puts it last and keeps every column listed once. */
  lemma WithColumnListed(f: Frame, n: string)
    requires WellFormed(f) && Listed(f)
    ensures Listed(WithColumn(f, n))
  {
  }

  /** A table whose columns the reconciliation pass overwrites and extends in place. */
  class Table {
    var names: seq<string>
    var cols: map<string, seq<Cell>>
    var height: nat

    function Value(): Frame
      reads this
    {
      Frame(names, cols, height)
    }

    ghost predicate Valid()
      reads this
    {
      WellFormed(Value())
    }

    constructor (f: Frame)
      requires WellFormed(f)
      ensures Valid() && Value() == f
    {
      names, cols, height := f.names, f.cols, f.height;
    }

    /** Reads one cell; a column that does not exist reads as missing. */
    function At(n: string, r: nat): (c: Cell)
      reads this
      ensures c == View(Value(), n, r)
    {
      if n in cols && r < |cols[n]| then cols[n][r] else Missing
    }

    /** `df[n] = pd.NA` for a column that does not exist yet. */
    method AddColumn(n: string)
      requires Valid() && n !in cols
      modifies this
      ensures Valid()
      ensures Value() == WithColumn(old(Value()), n)
    {
      names := names + [n];
      cols := cols[n := seq(height, _ => Missing)];
    }

    /** `df.at[r, n] = v`. */
    method Put(n: string, r: nat, v: Cell)
      requires Valid() && n in cols && r < height
      modifies this
      ensures Valid()
      ensures Value() == WithCell(old(Value()), n, r, v)
    {
      cols := cols[n := cols[n][r := v]];
    }
  }
}
