/** The tabular store every stage reads and writes: a pandas `DataFrame` as it
    comes back from a CSV file. Columns are named and ordered, row labels are
    the positions 0, 1, ... that `read_csv` assigns, and a cell is a string or
    missing (`NaN`, which is what an empty CSV field reads back as). */
module Table {
  import opened Wrappers
  import opened Seqs

  /** One cell: `None` is pandas' `NaN`. */
  type Cell = Option<string>
  type Row = seq<Cell>

  datatype Frame = Frame(columns: seq<string>, rows: seq<Row>) {
    /** Column names are distinct and every row has one cell per column. */
    predicate Valid() {
      Distinct(columns) && forall row :: row in rows ==> |row| == |columns|
    }
  }

  /** pandas' `df.empty`: no rows or no columns. */
  predicate IsEmpty(f: Frame) {
    |f.rows| == 0 || |f.columns| == 0
  }

  /** The text an f-string gives for a cell: `NaN` prints as "nan". */
  function CellText(c: Cell): string {
    match c
    case Some(s) => s
    case None => "nan"
  }

  /** The position of the first column called `name`. */
  function IndexOf(names: seq<string>, name: string): (k: nat)
    requires name in names
    ensures k < |names| && names[k] == name
    ensures forall j :: 0 <= j < k ==> names[j] != name
  {
    if names[0] == name then 0 else 1 + IndexOf(names[1..], name)
  }

  /** Among distinct names the position of a name is the only one holding it. */
  lemma IndexOfUnique(names: seq<string>, name: string, k: nat)
    requires Distinct(names) && k < |names| && names[k] == name
    ensures IndexOf(names, name) == k
  {
  }

  /** The cell of row `i` in column `name`: `df.loc[i, name]`. */
  function At(f: Frame, i: nat, name: string): Cell
    requires f.Valid() && i < |f.rows| && name in f.columns
  {
    assert f.rows[i] in f.rows;
    f.rows[i][IndexOf(f.columns, name)]
  }

  /** Two valid frames with the same columns, rows and cells are equal. */
  lemma FrameEquality(f: Frame, g: Frame)
    requires f.Valid() && g.Valid() && f.columns == g.columns && |f.rows| == |g.rows|
    requires forall i, c :: 0 <= i < |f.rows| && c in f.columns ==> At(f, i, c) == At(g, i, c)
    ensures f == g
  {
    forall i | 0 <= i < |f.rows| ensures f.rows[i] == g.rows[i] {
      assert f.rows[i] in f.rows && g.rows[i] in g.rows;
      forall k | 0 <= k < |f.columns| ensures f.rows[i][k] == g.rows[i][k] {
        IndexOfUnique(f.columns, f.columns[k], k);
        assert At(f, i, f.columns[k]) == At(g, i, f.columns[k]);
      }
    }
  }

  /** The whole column `name`: `df[name]`. */
  function Cells(f: Frame, name: string): (c: seq<Cell>)
    requires f.Valid() && name in f.columns
    ensures |c| == |f.rows|
    ensures forall i :: 0 <= i < |c| ==> c[i] == At(f, i, name)
  {
    seq(|f.rows|, i requires 0 <= i < |f.rows| => At(f, i, name))
  }

  /** `n` copies of one cell, the broadcast in `df[name] = value`. */
  function Repeat(v: Cell, n: nat): (c: seq<Cell>)
    ensures |c| == n && forall i :: 0 <= i < n ==> c[i] == v
  {
    seq(n, _ => v)
  }

  /** `df[name] = values`: replaces the column when it exists and otherwise
      appends it as the last column. */
  function Assign(f: Frame, name: string, values: seq<Cell>): (r: Frame)
    requires f.Valid() && |values| == |f.rows|
    ensures r.Valid()
    ensures r.columns == if name in f.columns then f.columns else f.columns + [name]
    ensures |r.rows| == |f.rows|
    ensures forall i :: 0 <= i < |f.rows| ==> At(r, i, name) == values[i]
    ensures forall i, c :: 0 <= i < |f.rows| && c in f.columns && c != name ==> At(r, i, c) == At(f, i, c)
  {
    if name in f.columns then Replace(f, name, values) else Append(f, name, values)
  }

  /** `Assign` to a column the frame has. */
  function Replace(f: Frame, name: string, values: seq<Cell>): (r: Frame)
    requires f.Valid() && |values| == |f.rows| && name in f.columns
    ensures r.Valid() && r.columns == f.columns && |r.rows| == |f.rows|
    ensures forall i :: 0 <= i < |f.rows| ==> At(r, i, name) == values[i]
    ensures forall i, c :: 0 <= i < |f.rows| && c in f.columns && c != name ==> At(r, i, c) == At(f, i, c)
  {
    var k := IndexOf(f.columns, name);
    var rows := seq(|f.rows|, i requires 0 <= i < |f.rows| => assert f.rows[i] in f.rows; f.rows[i][k := values[i]]);
    var r := Frame(f.columns, rows);
    assert forall row :: row in rows ==> |row| == |f.columns|;
    r
  }

  /** `Assign` to a column the frame lacks. */
  function Append(f: Frame, name: string, values: seq<Cell>): (r: Frame)
    requires f.Valid() && |values| == |f.rows| && name !in f.columns
    ensures r.Valid() && r.columns == f.columns + [name] && |r.rows| == |f.rows|
    ensures forall i :: 0 <= i < |f.rows| ==> At(r, i, name) == values[i]
    ensures forall i, c :: 0 <= i < |f.rows| && c in f.columns ==> At(r, i, c) == At(f, i, c)
  {
    var rows := seq(|f.rows|, i requires 0 <= i < |f.rows| => f.rows[i] + [values[i]]);
    var r := Frame(f.columns + [name], rows);
    assert Distinct(r.columns);
    assert forall row :: row in rows ==> |row| == |r.columns| by {
      forall row | row in rows ensures |row| == |r.columns| {
        var i :| 0 <= i < |rows| && rows[i] == row;
        assert f.rows[i] in f.rows;
      }
    }
    IndexOfUnique(r.columns, name, |f.columns|);
    forall i | 0 <= i < |f.rows| ensures At(r, i, name) == values[i] {
      assert f.rows[i] in f.rows;
    }
    forall i, c | 0 <= i < |f.rows| && c in f.columns ensures At(r, i, c) == At(f, i, c) {
      var k := IndexOf(f.columns, c);
      IndexOfUnique(r.columns, c, k);
      assert f.rows[i] in f.rows;
      assert rows[i][k] == f.rows[i][k];
    }
    r
  }

  /** `df.loc[mask, name] = v` for the rows at the positions in `selected`.
      A missing column is created first, `NaN` in the rows not selected. */
  function SetWhere(f: Frame, selected: set<nat>, name: string, v: Cell): (r: Frame)
    requires f.Valid()
    ensures r.Valid()
    ensures r.columns == if name in f.columns then f.columns else f.columns + [name]
    ensures forall x :: x in r.columns <==> x in f.columns || x == name
    ensures |r.rows| == |f.rows|
    ensures forall i :: 0 <= i < |f.rows| ==>
      At(r, i, name) == if i in selected then v else if name in f.columns then At(f, i, name) else None
    ensures forall i, c :: 0 <= i < |f.rows| && c in f.columns && c != name ==> At(r, i, c) == At(f, i, c)
  {
    var values := seq(|f.rows|, i requires 0 <= i < |f.rows| =>
      if i in selected then v else if name in f.columns then At(f, i, name) else None);
    Assign(f, name, values)
  }

  /** `g` is `s` after `df.loc[mask, a] = va`, `df.loc[mask, b] = vb` and
      `df.loc[mask, c] = vc` for the rows in `sel`: those three columns
      exist, every other column is kept, and outside the selection a cell
      keeps its value, or is `NaN` in a column that was added. */
  predicate SetInRows(s: Frame, g: Frame, sel: set<nat>, a: string, b: string, c: string, va: Cell, vb: Cell, vc: Cell)
    requires s.Valid()
  {
    && g.Valid() && |g.rows| == |s.rows| && s.columns <= g.columns
    && a in g.columns && b in g.columns && c in g.columns
    && (forall x :: x in g.columns ==> x in s.columns || x == a || x == b || x == c)
    && (forall i, x :: 0 <= i < |s.rows| && x in g.columns ==>
          At(g, i, x) ==
            if i in sel && x == a then va
            else if i in sel && x == b then vb
            else if i in sel && x == c then vc
            else if x in s.columns then At(s, i, x)
            else None)
  }

  /** What `SetWhere(f, sel, name, v)` promises about its result `r`. */
  ghost predicate SetOne(f: Frame, r: Frame, sel: set<nat>, name: string, v: Cell)
    requires f.Valid()
  {
    && r.Valid() && |r.rows| == |f.rows| && f.columns <= r.columns
    && (forall x :: x in r.columns <==> x in f.columns || x == name)
    && (forall i :: 0 <= i < |f.rows| ==>
          At(r, i, name) == if i in sel then v else if name in f.columns then At(f, i, name) else None)
    && (forall i, x :: 0 <= i < |f.rows| && x in f.columns && x != name ==> At(r, i, x) == At(f, i, x))
  }

  lemma SetWhereIsSetOne(f: Frame, sel: set<nat>, name: string, v: Cell)
    requires f.Valid()
    ensures SetOne(f, SetWhere(f, sel, name, v), sel, name, v)
  {
  }

  /** Three masked assignments to three different columns. */
  lemma SetThree(s: Frame, sel: set<nat>, a: string, b: string, c: string, va: Cell, vb: Cell, vc: Cell)
    requires s.Valid() && a != b && a != c && b != c
    ensures SetInRows(s, SetWhere(SetWhere(SetWhere(s, sel, a, va), sel, b, vb), sel, c, vc), sel, a, b, c, va, vb, vc)
  {
    var g1 := SetWhere(s, sel, a, va);
    var g2 := SetWhere(g1, sel, b, vb);
    var g := SetWhere(g2, sel, c, vc);
    SetWhereIsSetOne(s, sel, a, va);
    SetWhereIsSetOne(g1, sel, b, vb);
    SetWhereIsSetOne(g2, sel, c, vc);
    SetOneThrice(s, g1, g2, g, sel, a, b, c, va, vb, vc);
  }

  lemma SetOneThrice(s: Frame, g1: Frame, g2: Frame, g: Frame, sel: set<nat>, a: string, b: string, c: string,
                     va: Cell, vb: Cell, vc: Cell)
    requires s.Valid() && a != b && a != c && b != c
    requires SetOne(s, g1, sel, a, va) && SetOne(g1, g2, sel, b, vb) && SetOne(g2, g, sel, c, vc)
    ensures SetInRows(s, g, sel, a, b, c, va, vb, vc)
  {
    forall i, x | 0 <= i < |s.rows| && x in g.columns
      ensures At(g, i, x) ==
        if i in sel && x == a then va
        else if i in sel && x == b then vb
        else if i in sel && x == c then vc
        else if x in s.columns then At(s, i, x)
        else None
    {
      if x == c {
        assert At(g, i, x) == if i in sel then vc else if c in g2.columns then At(g2, i, c) else None;
        if c in g2.columns {
          assert At(g2, i, c) == if c in g1.columns then At(g1, i, c) else None;
          if c in g1.columns {
            assert At(g1, i, c) == if c in s.columns then At(s, i, c) else None;
          }
        }
      } else if x == b {
        assert At(g, i, x) == At(g2, i, x);
        assert At(g2, i, x) == if i in sel then vb else if b in g1.columns then At(g1, i, b) else None;
        if b in g1.columns {
          assert At(g1, i, b) == if b in s.columns then At(s, i, b) else None;
        }
      } else if x == a {
        assert At(g, i, x) == At(g2, i, x) == At(g1, i, x);
      } else {
        assert At(g, i, x) == At(g2, i, x) == At(g1, i, x) == At(s, i, x);
      }
    }
  }

  /** `df.loc[i, name] = v` on an existing cell. */
  function SetCell(f: Frame, i: nat, name: string, v: Cell): (r: Frame)
    requires f.Valid() && i < |f.rows| && name in f.columns
    ensures r.Valid() && r.columns == f.columns && |r.rows| == |f.rows|
    ensures At(r, i, name) == v
    ensures forall j, c :: 0 <= j < |f.rows| && c in f.columns && (j != i || c != name) ==> At(r, j, c) == At(f, j, c)
  {
    SetWhere(f, {i}, name, v)
  }

  /** pandas' `df.head(n)`: the first `n` rows, or for a negative `n` all rows
      but the last `-n`. */
  function Head(f: Frame, n: int): (r: Frame)
    ensures r.columns == f.columns
    ensures |r.rows| == if n >= 0 then Min(n, |f.rows|) else if |f.rows| + n >= 0 then |f.rows| + n else 0
    ensures r.rows <= f.rows
    ensures f.Valid() ==> r.Valid()
  {
    var keep := if n >= 0 then Min(n, |f.rows|) else if |f.rows| + n >= 0 then |f.rows| + n else 0;
    assert forall row :: row in f.rows[..keep] ==> row in f.rows;
    Frame(f.columns, f.rows[..keep])
  }

  /** `df.reindex(columns=names)`: the same rows with the columns in the order
      given; a name the frame does not have becomes a column of `NaN`. */
  function Reindex(f: Frame, names: seq<string>): (r: Frame)
    requires f.Valid() && Distinct(names)
    ensures r.Valid() && r.columns == names && |r.rows| == |f.rows|
    ensures forall i, c :: 0 <= i < |f.rows| && c in names ==>
      At(r, i, c) == if c in f.columns then At(f, i, c) else None
  {
    var rows := seq(|f.rows|, i requires 0 <= i < |f.rows| =>
      seq(|names|, k requires 0 <= k < |names| => if names[k] in f.columns then At(f, i, names[k]) else None));
    var r := Frame(names, rows);
    assert r.Valid();
    forall i, c | 0 <= i < |f.rows| && c in names
      ensures At(r, i, c) == if c in f.columns then At(f, i, c) else None
    {
      var k :| 0 <= k < |names| && names[k] == c;
      IndexOfUnique(names, c, k);
    }
    r
  }

  /** Rows of two frames with the same columns, one set under the other. */
  lemma StackCells(x: Frame, y: Frame)
    requires x.Valid() && y.Valid() && x.columns == y.columns
    ensures Frame(x.columns, x.rows + y.rows).Valid()
    ensures forall i, c :: 0 <= i < |x.rows| && c in x.columns ==>
      At(Frame(x.columns, x.rows + y.rows), i, c) == At(x, i, c)
    ensures forall j, c :: |x.rows| <= j < |x.rows| + |y.rows| && c in x.columns ==>
      At(Frame(x.columns, x.rows + y.rows), j, c) == At(y, j - |x.rows|, c)
  {
    var r := Frame(x.columns, x.rows + y.rows);
    assert forall row :: row in r.rows ==> row in x.rows || row in y.rows;
    forall j, c | |x.rows| <= j < |r.rows| && c in x.columns
      ensures At(r, j, c) == At(y, j - |x.rows|, c)
    {
      assert r.rows[j] == y.rows[j - |x.rows|];
    }
  }

  /** The names of `b` that `a` lacks, in their order in `b`. */
  function NewNames(a: seq<string>, b: seq<string>): (r: seq<string>)
    ensures forall c :: c in r <==> c in b && c !in a
    ensures Distinct(b) ==> Distinct(r)
  {
    var r := Filter(b, c => c !in a);
    assert Distinct(b) ==> Distinct(r) by {
      if Distinct(b) {
        FilterDistinct(b, c => c !in a);
      }
    }
    r
  }

  /** The new names of a list grown by one name. */
  lemma NewNamesSnoc(a: seq<string>, b: seq<string>, x: string)
    ensures NewNames(a, b + [x]) == NewNames(a, b) + (if x in a then [] else [x])
  {
    FilterSnoc(b, x, c => c !in a);
  }

  /** `pd.concat([a, b], ignore_index=True, sort=False)`: the rows of `a` then
      the rows of `b`, under the columns of `a` followed by the columns only
      `b` has; a cell a frame has no column for is `NaN`. */
  function Concat(a: Frame, b: Frame): (r: Frame)
    requires a.Valid() && b.Valid()
    ensures r.Valid()
    ensures r.columns == a.columns + NewNames(a.columns, b.columns)
    ensures |r.rows| == |a.rows| + |b.rows|
    ensures forall i, c :: 0 <= i < |a.rows| && c in r.columns ==>
      At(r, i, c) == if c in a.columns then At(a, i, c) else None
    ensures forall j, c :: |a.rows| <= j < |r.rows| && c in r.columns ==>
      At(r, j, c) == if c in b.columns then At(b, j - |a.rows|, c) else None
  {
    var extra := NewNames(a.columns, b.columns);
    var names := a.columns + extra;
    assert forall j :: 0 <= j < |extra| ==> extra[j] in extra && extra[j] !in a.columns;
    assert Distinct(names);
    StackReindexed(a, b, names);
    Frame(names, Reindex(a, names).rows + Reindex(b, names).rows)
  }

  /** Two frames brought to the same columns and stacked. */
  lemma StackReindexed(a: Frame, b: Frame, names: seq<string>)
    requires a.Valid() && b.Valid() && Distinct(names)
    ensures var r := Frame(names, Reindex(a, names).rows + Reindex(b, names).rows);
      && r.Valid()
      && (forall i, c :: 0 <= i < |a.rows| && c in names ==>
            At(r, i, c) == if c in a.columns then At(a, i, c) else None)
      && (forall j, c :: |a.rows| <= j < |r.rows| && c in names ==>
            At(r, j, c) == if c in b.columns then At(b, j - |a.rows|, c) else None)
  {
    var wa, wb := Reindex(a, names), Reindex(b, names);
    StackCells(wa, wb);
    var r := Frame(names, wa.rows + wb.rows);
    forall i, c | 0 <= i < |a.rows| && c in names
      ensures At(r, i, c) == if c in a.columns then At(a, i, c) else None
    {
      assert At(r, i, c) == At(wa, i, c);
    }
    forall j, c | |a.rows| <= j < |r.rows| && c in names
      ensures At(r, j, c) == if c in b.columns then At(b, j - |a.rows|, c) else None
    {
      assert At(r, j, c) == At(wb, j - |a.rows|, c);
    }
  }
}
