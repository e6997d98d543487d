/** The data handling of the Streamlit dashboard (`app/generate_dashboard.py`):
    loading the summarised table, the category menu and filter, the "latest
    update" caption, regenerating one paper's summary in the stored table,
    and appending a freshly summarised raw paper to it.

    Widgets, caching and reruns are not modelled: the user's choices (the
    selected category, the picked paper, whether the API key is set) are
    parameters, and so are the clock and the service's reply. */
module Dashboard {
  import opened Wrappers
  import opened Seqs
  import opened Text
  import opened Calendar
  import opened Table

  const TitleColumn := "title"
  const CategoryColumn := "category"
  const SummaryColumn := "summary"
  const SummaryShortColumn := "summary_short"
  const UpdatedColumn := "summary_updated"
  const WeekColumn := "week_of_update"
  const AbstractKey := "abstract"

  /** The columns `load_processed` guarantees, in the order it adds them. */
  const Shown: seq<string> := ["title", "authors", "category", "link", "summary", "summary_updated", "week_of_update"]

  /** The menu entry that disables the category filter. */
  const AllCategories := "All"

  /** Only the first rows of the raw table get a "Generate summary" button. */
  const SampleSize := 50

  lemma ShownDistinct()
    ensures Distinct(Shown) && SummaryColumn in Shown && SummaryColumn != SummaryShortColumn
  {
    assert Shown[4] == SummaryColumn;
  }

  // ---------------------------------------------------------------------------
  // Loading

  /** `[c.strip() for c in df.columns]`. */
  function StripNames(names: seq<string>): (r: seq<string>)
    ensures |r| == |names|
  {
    seq(|names|, k requires 0 <= k < |names| => Strip(names[k]))
  }

  /** Each stripped name is the original name without surrounding
      whitespace; names that were already stripped are kept. */
  lemma StripNamesAt(names: seq<string>, k: nat)
    requires k < |names|
    ensures StripNames(names)[k] == Strip(names[k])
    ensures Strip(StripNames(names)[k]) == StripNames(names)[k]
    ensures Strip(names[k]) == names[k] ==> StripNames(names)[k] == names[k]
  {
    StripIdempotent(names[k]);
  }

  /** `g` is `f` with its columns renamed to `names`, position by position:
      the column at position `k` is found under its new name. */
  predicate RenamedFrom(f: Frame, names: seq<string>, g: Frame)
    requires f.Valid()
  {
    && g == Frame(names, f.rows) && g.Valid()
    && forall i, k :: 0 <= i < |f.rows| && 0 <= k < |names| ==> At(g, i, names[k]) == f.rows[i][k]
  }

  /** Renaming to distinct names keeps every row. */
  lemma RenamedCells(f: Frame, names: seq<string>)
    requires f.Valid() && Distinct(names) && |names| == |f.columns|
    ensures RenamedFrom(f, names, Frame(names, f.rows))
  {
    var g := Frame(names, f.rows);
    forall i, k | 0 <= i < |f.rows| && 0 <= k < |names| ensures At(g, i, names[k]) == f.rows[i][k] {
      IndexOfUnique(names, names[k], k);
    }
  }

  /** `r` is `f` with the `names` it lacked added as the last columns, in
      the order of `names`, all `""`, and nothing else changed. */
  predicate AddedMissing(f: Frame, r: Frame, names: seq<string>)
    requires f.Valid()
  {
    && r.Valid() && |r.rows| == |f.rows|
    && r.columns == f.columns + NewNames(f.columns, names)
    && (forall i, c :: 0 <= i < |f.rows| && c in f.columns ==> At(r, i, c) == At(f, i, c))
    && (forall i, c :: 0 <= i < |f.rows| && c in names && c !in f.columns ==> At(r, i, c) == Some(""))
  }

  /** The loop `for c in names: if c not in df.columns: df[c] = ""`: the
      missing names become columns of `""` at the end, in the order of
      `names`, and nothing else changes. */
  method AddMissing(f: Frame, names: seq<string>) returns (r: Frame)
    requires f.Valid() && Distinct(names)
    ensures AddedMissing(f, r, names)
  {
    r := f;
    assert names[..0] == [];
    for k := 0 to |names|
      invariant AddedMissing(f, r, names[..k])
    {
      r := AddIfMissing(f, names, k, r);
    }
    assert names[..|names|] == names;
  }

  /** One step of `AddMissing`: the `k`-th name is added when missing. */
  method AddIfMissing(f: Frame, names: seq<string>, k: nat, r: Frame) returns (r': Frame)
    requires f.Valid() && Distinct(names) && k < |names|
    requires AddedMissing(f, r, names[..k])
    ensures AddedMissing(f, r', names[..k + 1])
  {
    var c := names[k];
    TakeSnoc(names, k);
    assert c !in names[..k];
    assert c in r.columns <==> c in f.columns;
    if c !in r.columns {
      r' := Assign(r, c, Repeat(Some(""), |r.rows|));
      AddedAbsent(f, r, r', names[..k], c);
    } else {
      r' := r;
      AddedPresent(f, r, names[..k], c);
    }
  }

  /** A name the table already has changes nothing. */
  lemma AddedPresent(f: Frame, r: Frame, pre: seq<string>, c: string)
    requires f.Valid() && c in f.columns
    requires AddedMissing(f, r, pre)
    ensures AddedMissing(f, r, pre + [c])
  {
    NewNamesSnoc(f.columns, pre, c);
    forall i, c' | 0 <= i < |f.rows| && c' in pre + [c] && c' !in f.columns
      ensures At(r, i, c') == Some("")
    {
      assert c' in pre;
    }
  }

  /** `r'` is `r` with a column `c` of `""` added at the end. */
  predicate BlankColumnAdded(r: Frame, r': Frame, c: string)
    requires r.Valid()
  {
    && r'.Valid() && |r'.rows| == |r.rows| && r'.columns == r.columns + [c]
    && (forall i :: 0 <= i < |r.rows| ==> At(r', i, c) == Some(""))
    && (forall i, c' :: 0 <= i < |r.rows| && c' in r.columns && c' != c ==> At(r', i, c') == At(r, i, c'))
  }

  /** A name the table lacks becomes its last column, all `""`. */
  lemma AddedAbsent(f: Frame, r: Frame, r': Frame, pre: seq<string>, c: string)
    requires f.Valid() && c !in f.columns && c !in pre
    requires AddedMissing(f, r, pre) && BlankColumnAdded(r, r', c)
    ensures AddedMissing(f, r', pre + [c])
  {
    NewNamesSnoc(f.columns, pre, c);
    forall i, c' | 0 <= i < |f.rows| && c' in f.columns
      ensures At(r', i, c') == At(f, i, c')
    {
      assert c' in r.columns && c' != c;
    }
    forall i, c' | 0 <= i < |f.rows| && c' in pre + [c] && c' !in f.columns
      ensures At(r', i, c') == Some("")
    {
      if c' != c {
        assert c' in pre && c' in NewNames(f.columns, pre);
      }
    }
  }

  /** `r` is `f` with column `sum` added as a copy of `short` when only the
      latter exists; nothing else changes. */
  ghost predicate CopiedSummary(f: Frame, r: Frame, sum: string, short: string)
    requires f.Valid()
  {
    && r.Valid() && |r.rows| == |f.rows| && f.columns <= r.columns
    && (forall c :: c in r.columns <==> c in f.columns || (c == sum && short in f.columns))
    && (forall i, c :: 0 <= i < |f.rows| && c in f.columns ==> At(r, i, c) == At(f, i, c))
    && (sum !in f.columns && short in f.columns ==>
          forall i :: 0 <= i < |f.rows| ==> At(r, i, sum) == At(f, i, short))
  }

  /** `df["summary"] = df["summary_short"]` when only the latter exists. */
  method CopySummary(f: Frame) returns (r: Frame)
    requires f.Valid()
    ensures CopiedSummary(f, r, SummaryColumn, SummaryShortColumn)
  {
    r := f;
    if SummaryColumn !in f.columns && SummaryShortColumn in f.columns {
      r := Assign(f, SummaryColumn, Cells(f, SummaryShortColumn));
    }
  }

  /** What `load_processed` promises about a table `df` it normalised from
      `f` with stripped column names `names`: the rows are kept, the stripped
      columns come first with their cells, every `shown` column exists, a
      `sum` column that was absent is a copy of `short` (or `""` without
      one), and every other added column holds `""`. */
  predicate NormalisedWith(f: Frame, names: seq<string>, df: Frame, shown: seq<string>, sum: string, short: string)
    requires f.Valid() && |names| == |f.columns|
  {
    && df.Valid() && |df.rows| == |f.rows|
    && names <= df.columns
    && (forall c :: c in shown ==> c in df.columns)
    && (forall c :: c in df.columns ==> c in names || c in shown)
    && (forall i, k :: 0 <= i < |f.rows| && 0 <= k < |names| ==> At(df, i, df.columns[k]) == f.rows[i][k])
    && (forall i :: 0 <= i < |f.rows| && sum in shown && sum !in names ==>
          At(df, i, sum) == if short in names then At(df, i, short) else Some(""))
    && (forall i, c :: 0 <= i < |f.rows| && c in shown && c !in names && c != sum ==> At(df, i, c) == Some(""))
  }

  /** `NormalisedWith` for the dashboard's own column names. */
  predicate Normalised(f: Frame, names: seq<string>, df: Frame)
    requires f.Valid() && |names| == |f.columns|
  {
    NormalisedWith(f, names, df, Shown, SummaryColumn, SummaryShortColumn)
  }

  /** `load_processed` on the stored table (`None` when the file does not
      exist). A table without rows or columns comes back as it is; otherwise
      the column names are stripped, `summary` is copied from
      `summary_short` when only the latter exists, and every shown column
      that is still missing is added as `""`. */
  method LoadProcessed(stored: Option<Frame>) returns (df: Frame)
    requires stored.Some? ==> stored.value.Valid() && Distinct(StripNames(stored.value.columns))
    ensures stored.None? ==> df == Frame([], [])
    ensures stored.Some? && IsEmpty(stored.value) ==> df == stored.value
    ensures stored.Some? && !IsEmpty(stored.value) ==> Normalised(stored.value, StripNames(stored.value.columns), df)
  {
    if stored.None? {
      return Frame([], []);
    }
    var f := stored.value;
    if IsEmpty(f) {
      return f;
    }
    var names := StripNames(f.columns);
    var renamed := Frame(names, f.rows);
    RenamedCells(f, names);
    var base := CopySummary(renamed);
    ShownDistinct();
    df := AddMissing(base, Shown);
    LoadedIsNormalised(f, names, renamed, base, df, Shown, SummaryColumn, SummaryShortColumn);
  }

  /** The three steps of `load_processed` compose to `NormalisedWith`. */
  lemma LoadedIsNormalised(f: Frame, names: seq<string>, renamed: Frame, base: Frame, df: Frame,
                           shown: seq<string>, sum: string, short: string)
    requires f.Valid() && |names| == |f.columns| && RenamedFrom(f, names, renamed)
    requires CopiedSummary(renamed, base, sum, short)
    requires Distinct(shown) && sum in shown
    requires AddedMissing(base, df, shown)
    ensures NormalisedWith(f, names, df, shown, sum, short)
  {
    LoadedColumns(f, names, renamed, base, df, shown, sum, short);
    LoadedCells(f, names, renamed, base, df, shown, sum, short);
  }

  /** The columns `load_processed` ends with. */
  lemma LoadedColumns(f: Frame, names: seq<string>, renamed: Frame, base: Frame, df: Frame,
                      shown: seq<string>, sum: string, short: string)
    requires f.Valid() && |names| == |f.columns| && RenamedFrom(f, names, renamed)
    requires CopiedSummary(renamed, base, sum, short)
    requires Distinct(shown) && sum in shown
    requires AddedMissing(base, df, shown)
    ensures df.Valid() && |df.rows| == |f.rows| && names <= df.columns
    ensures forall c :: c in shown ==> c in df.columns
    ensures forall c :: c in df.columns ==> c in names || c in shown
  {
    assert base.columns <= df.columns;
    forall c | c in shown ensures c in df.columns {
      if c !in base.columns {
        assert c in NewNames(base.columns, shown);
      }
    }
    forall c | c in df.columns ensures c in names || c in shown {
      if c !in base.columns {
        assert c in NewNames(base.columns, shown);
      }
    }
  }

  /** The cells `load_processed` ends with. */
  lemma LoadedCells(f: Frame, names: seq<string>, renamed: Frame, base: Frame, df: Frame,
                    shown: seq<string>, sum: string, short: string)
    requires f.Valid() && |names| == |f.columns| && RenamedFrom(f, names, renamed)
    requires CopiedSummary(renamed, base, sum, short)
    requires Distinct(shown) && sum in shown
    requires AddedMissing(base, df, shown)
    ensures forall i, k :: 0 <= i < |f.rows| && 0 <= k < |names| ==> At(df, i, df.columns[k]) == f.rows[i][k]
    ensures forall i :: 0 <= i < |f.rows| && sum in shown && sum !in names ==>
      At(df, i, sum) == if short in names then At(df, i, short) else Some("")
    ensures forall i, c :: 0 <= i < |f.rows| && c in shown && c !in names && c != sum ==> At(df, i, c) == Some("")
  {
    forall i, k | 0 <= i < |f.rows| && 0 <= k < |names| ensures At(df, i, df.columns[k]) == f.rows[i][k] {
      assert df.columns[k] == names[k] && names[k] in names;
    }
    forall i | 0 <= i < |f.rows| && sum in shown && sum !in names
      ensures At(df, i, sum) == if short in names then At(df, i, short) else Some("")
    {
      if short in names {
        assert At(df, i, short) == At(base, i, short) == At(renamed, i, short);
      }
    }
  }

  // ---------------------------------------------------------------------------
  // Category menu and filter

  /** `.dropna()` on a column of text: the present values, in row order. */
  function Present(cells: seq<Cell>): (r: seq<string>)
    ensures forall x :: x in r <==> Some(x) in cells
  {
    if cells == [] then []
    else
      assert cells == [cells[0]] + cells[1..];
      (if cells[0].Some? then [cells[0].value] else []) + Present(cells[1..])
  }

  /** The category menu: "All", then the distinct present categories in
      increasing order; just "All" for an empty table. */
  function CategoryOptions(proc: Frame): (r: seq<string>)
    requires proc.Valid() && (!IsEmpty(proc) ==> CategoryColumn in proc.columns)
    ensures r != [] && r[0] == AllCategories
    ensures StrictlySorted(r[1..])
    ensures forall x :: x in r[1..] <==>
      !IsEmpty(proc) && exists i :: 0 <= i < |proc.rows| && At(proc, i, CategoryColumn) == Some(x)
  {
    if IsEmpty(proc) then [AllCategories]
    else
      var cells := Cells(proc, CategoryColumn);
      var r := [AllCategories] + SortedUnique(Present(cells));
      assert r[1..] == SortedUnique(Present(cells));
      assert forall x :: x in r[1..] <==> x in Elems(Present(cells));
      forall x | Some(x) in cells ensures exists i :: 0 <= i < |proc.rows| && At(proc, i, CategoryColumn) == Some(x) {
        var i :| 0 <= i < |cells| && cells[i] == Some(x);
        assert At(proc, i, CategoryColumn) == Some(x);
      }
      forall x, i | 0 <= i < |proc.rows| && At(proc, i, CategoryColumn) == Some(x) ensures Some(x) in cells {
        assert cells[i] == Some(x);
      }
      r
  }

  /** The positions, in table order, of the rows whose category is `selected`. */
  function RowsOfCategory(proc: Frame, selected: string): (idx: seq<nat>)
    requires proc.Valid() && CategoryColumn in proc.columns
    ensures forall i: nat :: i in idx <==> i < |proc.rows| && At(proc, i, CategoryColumn) == Some(selected)
    ensures forall j, k :: 0 <= j < k < |idx| ==> idx[j] < idx[k]
    ensures forall j :: 0 <= j < |idx| ==> idx[j] < |proc.rows|
  {
    var idx := IndicesWhere(Cells(proc, CategoryColumn), (c: Cell) => c == Some(selected));
    assert forall j :: 0 <= j < |idx| ==> idx[j] in idx;
    idx
  }

  /** The category filter: "All" shows the whole table; any other choice
      keeps exactly the rows of that category, in table order; filtering a
      table without a category column raises. */
  function FilterCategory(proc: Frame, selected: string): (r: Option<Frame>)
    requires proc.Valid()
    ensures selected == AllCategories ==> r == Some(proc)
    ensures selected != AllCategories && CategoryColumn !in proc.columns ==> r == None
    ensures selected != AllCategories && CategoryColumn in proc.columns ==>
      var idx := RowsOfCategory(proc, selected);
      && r.Some? && r.value.columns == proc.columns && |r.value.rows| == |idx|
      && forall j :: 0 <= j < |idx| ==> r.value.rows[j] == proc.rows[idx[j]]
  {
    if selected == AllCategories then Some(proc)
    else if CategoryColumn !in proc.columns then None
    else Some(Frame(proc.columns, Pick(proc.rows, RowsOfCategory(proc, selected))))
  }

  /** Every row whose category is present can be found through the menu: its
      category is offered, and choosing it keeps the row (unless the category
      is itself called "All", which shows everything). */
  lemma MenuReachesEveryRow(proc: Frame, i: nat)
    requires proc.Valid() && CategoryColumn in proc.columns && i < |proc.rows|
    requires At(proc, i, CategoryColumn).Some?
    ensures var c := At(proc, i, CategoryColumn).value;
      && c in CategoryOptions(proc)[1..]
      && FilterCategory(proc, c).Some?
      && proc.rows[i] in FilterCategory(proc, c).value.rows
  {
    var c := At(proc, i, CategoryColumn).value;
    assert !IsEmpty(proc);
    if c != AllCategories {
      var idx := RowsOfCategory(proc, c);
      var j :| 0 <= j < |idx| && idx[j] == i;
      assert FilterCategory(proc, c).value.rows[j] == proc.rows[i];
    } else {
      assert proc.rows[i] in proc.rows;
    }
  }

  // ---------------------------------------------------------------------------
  // Latest update

  /** `astype(bool)` on a cell: `NaN` and every non-empty text are true. */
  predicate Truthy(c: Cell) {
    c.None? || c.value != ""
  }

  /** The caption above the table: no timestamp at all, the latest one
      (`NaN` when every true cell is `NaN`), or the exception `max` raises. */
  datatype Caption = NoTimestamps | LatestAt(ts: Cell) | Unorderable

  /** `cells[cells.astype(bool)].max()` when some cell is true. On a column
      of texts pandas replaces each `NaN` by negative infinity before taking
      the maximum: with only `NaN`s selected the result is `NaN`, with only
      texts it is the greatest text in string order, and with both it
      compares a number with a text and raises. */
  function LatestOf(cells: seq<Cell>): (r: Caption)
    ensures r == NoTimestamps <==> forall i :: 0 <= i < |cells| ==> !Truthy(cells[i])
    ensures r == Unorderable <==>
      && (exists i :: 0 <= i < |cells| && cells[i] == None)
      && (exists i :: 0 <= i < |cells| && cells[i].Some? && cells[i].value != "")
    ensures r == LatestAt(None) <==>
      && (exists i :: 0 <= i < |cells| && cells[i] == None)
      && forall i :: 0 <= i < |cells| ==> cells[i].None? || cells[i].value == ""
    ensures r.LatestAt? && r.ts.Some? ==>
      && r.ts.value != ""
      && (forall i :: 0 <= i < |cells| ==> cells[i].Some?)
      && (exists i :: 0 <= i < |cells| && cells[i] == r.ts)
      && forall i :: 0 <= i < |cells| ==> cells[i].value == r.ts.value || Less(cells[i].value, r.ts.value)
  {
    if forall k :: 0 <= k < |cells| ==> !Truthy(cells[k]) then NoTimestamps
    else if (exists k :: 0 <= k < |cells| && cells[k] == None) && NonEmptyTexts(cells) != [] then
      var x := NonEmptyTexts(cells)[0];
      assert x in NonEmptyTexts(cells);
      var i :| 0 <= i < |cells| && cells[i] == Some(x);
      Unorderable
    else LatestSkippingNaN(cells)
  }

  /** The caption the code evidently means: the latest non-empty text, the
      `NaN`s skipped. */
  function LatestSkippingNaN(cells: seq<Cell>): (r: Caption)
    ensures r == NoTimestamps <==> forall i :: 0 <= i < |cells| ==> !Truthy(cells[i])
    ensures r == LatestAt(None) <==>
      && (exists i :: 0 <= i < |cells| && cells[i] == None)
      && forall i :: 0 <= i < |cells| ==> cells[i].None? || cells[i].value == ""
    ensures r.LatestAt? && r.ts.Some? ==>
      && r.ts.value != ""
      && (exists i :: 0 <= i < |cells| && cells[i] == r.ts)
      && forall i :: 0 <= i < |cells| && cells[i].Some? ==>
           cells[i].value == r.ts.value || Less(cells[i].value, r.ts.value)
  {
    var stamps := NonEmptyTexts(cells);
    if forall k :: 0 <= k < |cells| ==> !Truthy(cells[k]) then NoTimestamps
    else if stamps == [] then LatestAt(None)
    else
      var m := MaxOf(stamps);
      forall i | 0 <= i < |cells| && cells[i].Some? ensures cells[i].value == m || Less(cells[i].value, m) {
        if cells[i].value == "" {
          LessTotal(m, "");
        }
      }
      LatestAt(Some(m))
  }

  /** The two captions differ only when `NaN`s and texts are both selected. */
  lemma CaptionsAgree(cells: seq<Cell>)
    requires (forall i :: 0 <= i < |cells| ==> cells[i].Some?)
          || (forall i :: 0 <= i < |cells| ==> cells[i].None? || cells[i].value == "")
    ensures LatestOf(cells) == LatestSkippingNaN(cells)
  {
  }

  /** One regenerated row among rows without a timestamp: the page raises
      where the caption is computed, instead of showing that row's time. */
  lemma MixedCaptionFails()
    ensures LatestOf([None, Some("2025-03-12T10:00:00+00:00")]) == Unorderable
    ensures LatestSkippingNaN([None, Some("2025-03-12T10:00:00+00:00")]) == LatestAt(Some("2025-03-12T10:00:00+00:00"))
  {
    var stamp := "2025-03-12T10:00:00+00:00";
    var cells: seq<Cell> := [None, Some(stamp)];
    assert Truthy(cells[1]) && cells[1] != None && cells[1].value != "";
    assert LatestOf(cells) == Unorderable by {
      assert cells[0] == None;
    }
    var r := LatestSkippingNaN(cells);
    assert r != NoTimestamps && r != LatestAt(None);
    assert r.LatestAt? && r.ts.Some?;
    var i :| 0 <= i < |cells| && cells[i] == r.ts;
    assert i == 1;
  }

  /** The non-empty texts among the cells. */
  function NonEmptyTexts(cells: seq<Cell>): (r: seq<string>)
    ensures forall x :: x in r ==> x != "" && Some(x) in cells
    ensures forall i :: 0 <= i < |cells| && cells[i].Some? && cells[i].value != "" ==> cells[i].value in r
  {
    var r := Filter(Present(cells), (s: string) => s != "");
    assert forall i :: 0 <= i < |cells| && cells[i].Some? ==> cells[i] in cells;
    r
  }

  /** The "Data last updated" caption of the processed table: nothing for an
      empty table, otherwise the latest `summary_updated` cell. */
  function LatestUpdate(proc: Frame): (r: Caption)
    requires proc.Valid() && (!IsEmpty(proc) ==> UpdatedColumn in proc.columns)
  {
    if IsEmpty(proc) then NoTimestamps else LatestOf(Cells(proc, UpdatedColumn))
  }

  // ---------------------------------------------------------------------------
  // Regenerating and appending summaries

  /** The service's reply: the message text, or the text of the exception
      the call raised. */
  datatype Response = Text(content: string) | Raised(message: string)

  type Client = string -> Response

  /** Why an action leaves the stored table alone or aborts the page. */
  datatype Failure = NoApiKey | NoStore | NoSuchTitle | MissingColumn(name: string)

  /** The request the dashboard sends for one paper. */
  function Prompt(title: string, abstractText: string): string {
    "Summarize this research paper for a general audience.\n\nTitle: " + title
    + "\n\nAbstract: " + abstractText + "\n\nSummary:"
  }

  /** `row.get('abstract', '')`: the stores keep abstracts under `summary`,
      so without an `abstract` column the request carries an empty one. */
  function AbstractOf(f: Frame, i: nat): (r: string)
    requires f.Valid() && i < |f.rows|
    ensures AbstractKey !in f.columns ==> r == ""
  {
    if AbstractKey in f.columns then CellText(At(f, i, AbstractKey)) else ""
  }

  /** The summary stored for a reply: the stripped text, or "ERROR: " and
      the exception's text. */
  function Generated(reply: Response): (r: string)
    ensures reply.Raised? ==> r == "ERROR: " + reply.message
    ensures reply.Text? ==> r == Strip(reply.content)
  {
    match reply
    case Text(content) => Strip(content)
    case Raised(message) => "ERROR: " + message
  }

  /** The summary generated for row `i` of `f`. */
  function SummaryFor(f: Frame, i: nat, client: Client): string
    requires f.Valid() && TitleColumn in f.columns && i < |f.rows|
  {
    Generated(client(Prompt(CellText(At(f, i, TitleColumn)), AbstractOf(f, i))))
  }

  /** `g` is `s` with, in the rows of `sel`, the generated summary, the
      generation timestamp and that timestamp's week. */
  predicate GeneratedIn(s: Frame, g: Frame, sel: set<nat>, summary: string, clock: Clock)
    requires s.Valid() && ClockValid(clock)
  {
    SetInRows(s, g, sel, SummaryColumn, UpdatedColumn, WeekColumn,
              Some(summary), Some(clock.iso), Some(WeekOfIso(clock.date)))
  }

  lemma GeneratedFieldsDistinct()
    ensures SummaryColumn != UpdatedColumn && SummaryColumn != WeekColumn && UpdatedColumn != WeekColumn
    ensures TitleColumn != SummaryColumn && TitleColumn != UpdatedColumn && TitleColumn != WeekColumn
  {
  }

  /** The first row, from position `from` on, whose title is the given
      (present) title: `proc[proc["title"] == t].iloc[0]` for `from == 0`. */
  function FirstWithTitle(proc: Frame, t: string, from: nat, bound: nat): (j: nat)
    requires proc.Valid() && TitleColumn in proc.columns && from <= bound < |proc.rows|
    requires At(proc, bound, TitleColumn) == Some(t)
    ensures from <= j <= bound && At(proc, j, TitleColumn) == Some(t)
    ensures forall k :: from <= k < j ==> At(proc, k, TitleColumn) != Some(t)
    decreases bound - from
  {
    if At(proc, from, TitleColumn) == Some(t) then from else FirstWithTitle(proc, t, from + 1, bound)
  }

  /** `df["title"] == t`: the rows whose title is `t`; a `NaN` title
      matches no row. */
  function TitleMatches(s: Frame, t: Cell): (sel: set<nat>)
    requires s.Valid() && TitleColumn in s.columns
    ensures forall i: nat :: i in sel <==> i < |s.rows| && t.Some? && At(s, i, TitleColumn) == t
  {
    set i: nat | i < |s.rows| && t.Some? && At(s, i, TitleColumn) == t
  }

  /** "Regenerate summary": the paper picked from the menu is looked up by
      its title (a missing title matches no row and aborts the page); with
      an API key, a new summary is requested for it, the table is read from
      disk, and every stored row with that title gets the summary, the
      timestamp and the timestamp's week, through `df.loc[mask, ...]`. */
  method Regenerate(proc: Frame, pick: nat, hasKey: bool, client: Client, clock: Clock, stored: Option<Frame>)
    returns (r: Result<Frame, Failure>)
    requires proc.Valid() && TitleColumn in proc.columns && pick < |proc.rows|
    requires ClockValid(clock)
    requires stored.Some? ==> stored.value.Valid()
    ensures At(proc, pick, TitleColumn) == None ==> r == Err(NoSuchTitle)
    ensures At(proc, pick, TitleColumn).Some? && !hasKey ==> r == Err(NoApiKey)
    ensures At(proc, pick, TitleColumn).Some? && hasKey && stored.None? ==> r == Err(NoStore)
    ensures At(proc, pick, TitleColumn).Some? && hasKey && stored.Some? && TitleColumn !in stored.value.columns ==>
      r == Err(MissingColumn(TitleColumn))
    ensures At(proc, pick, TitleColumn).Some? && hasKey && stored.Some? && TitleColumn in stored.value.columns ==>
      var s, t := stored.value, At(proc, pick, TitleColumn);
      && r.Ok?
      && GeneratedIn(s, r.value, TitleMatches(s, t), SummaryFor(proc, FirstWithTitle(proc, t.value, 0, pick), client), clock)
  {
    var t := At(proc, pick, TitleColumn);
    if t.None? {
      return Err(NoSuchTitle);
    }
    var row := FirstWithTitle(proc, t.value, 0, pick);
    if !hasKey {
      return Err(NoApiKey);
    }
    var summary := SummaryFor(proc, row, client);
    var ts, wk := clock.iso, WeekOfIso(clock.date);
    if stored.None? {
      return Err(NoStore);
    }
    var df := stored.value;
    if TitleColumn !in df.columns {
      return Err(MissingColumn(TitleColumn));
    }
    var mask := TitleMatches(df, t);
    var s := df;
    df := SetWhere(df, mask, SummaryColumn, Some(summary));
    df := SetWhere(df, mask, UpdatedColumn, Some(ts));
    df := SetWhere(df, mask, WeekColumn, Some(wk));
    GeneratedFieldsDistinct();
    SetThree(s, mask, SummaryColumn, UpdatedColumn, WeekColumn, Some(summary), Some(ts), Some(wk));
    r := Ok(df);
  }

  /** `r.to_dict()` for raw row `i`: a one-row table with the same columns. */
  function RowOf(raw: Frame, i: nat): (one: Frame)
    requires raw.Valid() && i < |raw.rows|
    ensures one.Valid() && one.columns == raw.columns && |one.rows| == 1
    ensures forall c :: c in raw.columns ==> At(one, 0, c) == At(raw, i, c)
  {
    assert raw.rows[i] in raw.rows;
    Frame(raw.columns, [raw.rows[i]])
  }

  /** The record of raw row `i` updated with the three generated fields: a
      field the row already has keeps its place, a new one is added at the
      end. */
  function GeneratedRow(raw: Frame, i: nat, summary: string, clock: Clock): (g: Frame)
    requires raw.Valid() && i < |raw.rows| && ClockValid(clock)
    ensures GeneratedIn(RowOf(raw, i), g, {0}, summary, clock)
  {
    var one := RowOf(raw, i);
    GeneratedFieldsDistinct();
    SetThree(one, {0}, SummaryColumn, UpdatedColumn, WeekColumn,
             Some(summary), Some(clock.iso), Some(WeekOfIso(clock.date)));
    SetWhere(SetWhere(SetWhere(one, {0}, SummaryColumn, Some(summary)),
                      {0}, UpdatedColumn, Some(clock.iso)),
             {0}, WeekColumn, Some(WeekOfIso(clock.date)))
  }

  /** "Generate summary" on a raw paper while nothing is summarised yet:
      with an API key, a summary is requested for raw row `i` and its record,
      with the three generated fields, is added as the last row of the
      stored table, or becomes the whole table when there is none. */
  method AppendGenerated(raw: Frame, i: nat, hasKey: bool, client: Client, clock: Clock, stored: Option<Frame>)
    returns (r: Result<Frame, Failure>)
    requires raw.Valid() && i < |raw.rows| && i < SampleSize
    requires ClockValid(clock)
    requires stored.Some? ==> stored.value.Valid()
    ensures TitleColumn !in raw.columns ==> r == Err(MissingColumn(TitleColumn))
    ensures TitleColumn in raw.columns && !hasKey ==> r == Err(NoApiKey)
    ensures TitleColumn in raw.columns && hasKey ==>
      var row := GeneratedRow(raw, i, SummaryFor(raw, i, client), clock);
      var before := if stored.Some? then stored.value.rows else [];
      && r.Ok? && r.value.Valid()
      && |r.value.rows| == |before| + 1
      && (stored.None? ==> r.value == row)
      && (stored.Some? ==>
            && r.value.columns == stored.value.columns + NewNames(stored.value.columns, row.columns)
            && (forall k, c :: 0 <= k < |before| && c in r.value.columns ==>
                  At(r.value, k, c) == if c in stored.value.columns then At(stored.value, k, c) else None)
            && (forall c :: c in r.value.columns ==>
                  At(r.value, |before|, c) == if c in row.columns then At(row, 0, c) else None))
  {
    if TitleColumn !in raw.columns {
      return Err(MissingColumn(TitleColumn));
    }
    if !hasKey {
      return Err(NoApiKey);
    }
    var summary := SummaryFor(raw, i, client);
    var row := GeneratedRow(raw, i, summary, clock);
    if stored.None? {
      return Ok(row);
    }
    var df := Concat(stored.value, row);
    r := Ok(df);
  }
}
