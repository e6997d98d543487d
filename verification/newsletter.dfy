/** The newsletter generator: it reads the summarised table, picks a headline
    week, orders the papers by the time their summary was generated, and
    lays them out either as an HTML document (rendered to PDF when the HTML
    renderer is available) or, as a fallback, as text lines placed on pages
    by a cursor that moves down the page and starts a new page near the
    bottom margin. */
module Newsletter {
  import opened Wrappers
  import opened Seqs
  import opened Text
  import opened Table
  import opened Calendar

  const TitleColumn := "title"
  const AuthorsColumn := "authors"
  const SummaryColumn := "summary"
  const SummaryShortColumn := "summary_short"
  const UpdatedColumn := "summary_updated"
  const WeekColumn := "week_of_update"

  /** Why no newsletter is produced. */
  datatype Failure =
    | NoCsv                   // the summarised table does not exist
    | NoSummaryText           // neither `summary` nor `summary_short` exists
    | MissingColumn(name: string)
    | TitleNotText            // the text layout slices a `NaN` title

  /** One row of the table once its text fields have been filled in. */
  datatype Paper = Paper(title: Cell, authors: string, updated: string, summary: string, week: string)

  // ---------------------------------------------------------------------------
  // Reading the table

  /** `fillna("")` on a text cell. */
  function Filled(c: Cell): string {
    c.GetOr("")
  }

  /** Row `i` with its summary taken from column `src`. */
  function PaperAt(f: Frame, i: nat, src: string): Paper
    requires f.Valid() && i < |f.rows| && src in f.columns
    requires UpdatedColumn in f.columns && WeekColumn in f.columns && TitleColumn in f.columns
  {
    Paper(At(f, i, TitleColumn),
          if AuthorsColumn in f.columns then CellText(At(f, i, AuthorsColumn)) else "-",
          Filled(At(f, i, UpdatedColumn)),
          Filled(At(f, i, src)),
          Filled(At(f, i, WeekColumn)))
  }

  /** The table as the generator sees it: a missing table raises; the
      summary is the `summary` column, or `summary_short` when there is no
      `summary` column, and neither raises; a missing timestamp or week
      column raises; every missing text becomes "". A missing `title`
      column raises as soon as there is a row to print. */
  function Prepare(stored: Option<Frame>): (r: Result<seq<Paper>, Failure>)
    requires stored.Some? ==> stored.value.Valid()
    ensures stored.None? ==> r == Err(NoCsv)
    ensures stored.Some? && SummaryColumn !in stored.value.columns && SummaryShortColumn !in stored.value.columns ==>
      r == Err(NoSummaryText)
    ensures stored.Some? && (SummaryColumn in stored.value.columns || SummaryShortColumn in stored.value.columns) ==>
      var f := stored.value;
      && (UpdatedColumn !in f.columns ==> r == Err(MissingColumn(UpdatedColumn)))
      && (UpdatedColumn in f.columns && WeekColumn !in f.columns ==> r == Err(MissingColumn(WeekColumn)))
      && (UpdatedColumn in f.columns && WeekColumn in f.columns && |f.rows| > 0 && TitleColumn !in f.columns ==>
            r == Err(MissingColumn(TitleColumn)))
    ensures r.Ok? ==>
      var f := stored.value;
      var src := if SummaryColumn in f.columns then SummaryColumn else SummaryShortColumn;
      && |r.value| == |f.rows|
      && forall i :: 0 <= i < |f.rows| ==>
           && r.value[i].title == At(f, i, TitleColumn)
           && r.value[i].authors == (if AuthorsColumn in f.columns then CellText(At(f, i, AuthorsColumn)) else "-")
           && r.value[i].updated == Filled(At(f, i, UpdatedColumn))
           && r.value[i].summary == Filled(At(f, i, src))
           && r.value[i].week == Filled(At(f, i, WeekColumn))
  {
    if stored.None? then Err(NoCsv)
    else
      var f := stored.value;
      if SummaryColumn !in f.columns && SummaryShortColumn !in f.columns then Err(NoSummaryText)
      else if UpdatedColumn !in f.columns then Err(MissingColumn(UpdatedColumn))
      else if WeekColumn !in f.columns then Err(MissingColumn(WeekColumn))
      else if |f.rows| == 0 then Ok([])
      else if TitleColumn !in f.columns then Err(MissingColumn(TitleColumn))
      else
        var src := if SummaryColumn in f.columns then SummaryColumn else SummaryShortColumn;
        Ok(seq(|f.rows|, i requires 0 <= i < |f.rows| => PaperAt(f, i, src)))
  }

  /** `summary_short` stands in only for a missing column, never for a
      missing cell: a row whose `summary` is empty prints no summary even
      when its `summary_short` has one. */
  lemma MissingSummaryStaysEmpty(f: Frame, i: nat)
    requires f.Valid() && i < |f.rows| && SummaryColumn in f.columns
    requires UpdatedColumn in f.columns && WeekColumn in f.columns && TitleColumn in f.columns
    requires At(f, i, SummaryColumn) == None
    ensures Prepare(Some(f)).Ok? && Prepare(Some(f)).value[i].summary == ""
  {
  }

  // ---------------------------------------------------------------------------
  // Headline week

  /** Whether some week is non-empty: `astype(bool).any()` once `NaN` has
      become "". */
  predicate AnyWeek(weeks: seq<string>) {
    exists k :: 0 <= k < |weeks| && weeks[k] != ""
  }

  /** The non-empty weeks, in order. */
  function KnownWeeks(weeks: seq<string>): (r: seq<string>)
    ensures forall w :: w in r <==> w in weeks && w != ""
    ensures forall w :: w != "" ==> Occurrences(r, w) == Occurrences(weeks, w)
    decreases |weeks|
  {
    if weeks == [] then []
    else
      var rest := KnownWeeks(weeks[1..]);
      assert weeks == [weeks[0]] + weeks[1..];
      assert multiset(weeks) == multiset([weeks[0]]) + multiset(weeks[1..]);
      var head := if weeks[0] != "" then [weeks[0]] else [];
      assert multiset(head + rest) == multiset(head) + multiset(rest);
      forall w | w != "" ensures Occurrences(head + rest, w) == Occurrences(weeks, w) {
        assert Occurrences(rest, w) == Occurrences(weeks[1..], w);
        assert multiset(head)[w] == multiset([weeks[0]])[w];
      }
      head + rest
  }

  /** The headline week as the generator computes it: the mode of every
      week, empty ones included, once some week is non-empty; otherwise
      "Week of " and today's date (today itself, not its Monday). */
  function HeadlineWeekAsWritten(weeks: seq<string>, today: Date): (r: string)
    requires IsValid(today)
    ensures AnyWeek(weeks) ==>
      && r in weeks
      && (forall w :: w in weeks ==> Occurrences(weeks, w) <= Occurrences(weeks, r))
      && (forall w :: w in weeks && Occurrences(weeks, w) == Occurrences(weeks, r) ==> w == r || Less(r, w))
    ensures !AnyWeek(weeks) ==> r == WeekPrefix + IsoDate(today)
  {
    if AnyWeek(weeks) then Mode(weeks) else WeekPrefix + IsoDate(today)
  }

  /** When most rows have no week the headline names none, although a
      non-empty week exists. */
  lemma HeadlineCanBeBlank(today: Date)
    requires IsValid(today)
    ensures HeadlineWeekAsWritten(["", "", "Week of 2024-01-01"], today) == ""
  {
    var weeks := ["", "", "Week of 2024-01-01"];
    assert weeks[2] != "";
    var r := HeadlineWeekAsWritten(weeks, today);
    assert multiset(weeks) == multiset{"", "", "Week of 2024-01-01"};
    assert Occurrences(weeks, "") == 2;
    assert Occurrences(weeks, "Week of 2024-01-01") == 1;
    assert r != "Week of 2024-01-01";
  }

  /** The headline week: the most frequent non-empty week (the smallest of
      equally frequent ones) when there is one; otherwise "Week of " and
      today's date. */
  function HeadlineWeek(weeks: seq<string>, today: Date): (r: string)
    requires IsValid(today)
    ensures AnyWeek(weeks) ==>
      && r != "" && r in weeks
      && (forall w :: w in weeks && w != "" ==> Occurrences(weeks, w) <= Occurrences(weeks, r))
      && (forall w :: w in weeks && w != "" && Occurrences(weeks, w) == Occurrences(weeks, r) ==> w == r || Less(r, w))
    ensures !AnyWeek(weeks) ==> r == WeekPrefix + IsoDate(today)
  {
    if AnyWeek(weeks) then
      var known := KnownWeeks(weeks);
      var k :| 0 <= k < |weeks| && weeks[k] != "";
      assert weeks[k] in known;
      Mode(known)
    else WeekPrefix + IsoDate(today)
  }

  /** Without blank weeks, dropping the blanks changes nothing. */
  lemma {:induction false} KnownWeeksNoBlank(weeks: seq<string>)
    requires forall k :: 0 <= k < |weeks| ==> weeks[k] != ""
    ensures KnownWeeks(weeks) == weeks
    decreases |weeks|
  {
    if weeks != [] {
      KnownWeeksNoBlank(weeks[1..]);
    }
  }

  /** The two headlines differ only through blank weeks: when every row has
      a week, the generator's headline is the corrected one. */
  lemma HeadlinesAgreeWithoutBlanks(weeks: seq<string>, today: Date)
    requires IsValid(today)
    requires forall k :: 0 <= k < |weeks| ==> weeks[k] != ""
    ensures HeadlineWeekAsWritten(weeks, today) == HeadlineWeek(weeks, today)
  {
    KnownWeeksNoBlank(weeks);
  }

  // ---------------------------------------------------------------------------
  // Ordering by generation time

  /** A parsed timestamp, `None` for text that does not parse (`NaT`). */
  type Parse = string -> Option<int>

  /** `a` comes strictly before `b` in `sort_values(ascending=False)`: later
      times first, unparsed ones last. */
  predicate Precedes(a: Option<int>, b: Option<int>) {
    a.Some? && (b.None? || a.value > b.value)
  }

  lemma PrecedesThrough(x: Option<int>, y: Option<int>, z: Option<int>)
    requires Precedes(x, y) && !Precedes(z, y)
    ensures !Precedes(z, x)
  {
  }

  /** No paper is listed after one it should come before. */
  predicate SortedByTime(papers: seq<Paper>, parse: Parse) {
    forall j, k :: 0 <= j < k < |papers| ==> !Precedes(parse(papers[k].updated), parse(papers[j].updated))
  }

  /** No paper of `s` comes before `x`. */
  predicate NoneBefore(x: Paper, s: seq<Paper>, parse: Parse) {
    forall e :: e in s ==> !Precedes(parse(e.updated), parse(x.updated))
  }

  lemma SortedCons(x: Paper, s: seq<Paper>, parse: Parse)
    requires SortedByTime(s, parse) && NoneBefore(x, s, parse)
    ensures SortedByTime([x] + s, parse)
  {
    var r := [x] + s;
    forall j, k | 0 <= j < k < |r| ensures !Precedes(parse(r[k].updated), parse(r[j].updated)) {
      assert r[k] == s[k - 1] && r[k] in s;
      if j > 0 {
        assert r[j] == s[j - 1];
      }
    }
  }

  /** The tail of a sorted list is sorted, and nothing in it comes before
      the head. */
  lemma SortedTail(sorted: seq<Paper>, parse: Parse)
    requires SortedByTime(sorted, parse) && sorted != []
    ensures SortedByTime(sorted[1..], parse) && NoneBefore(sorted[0], sorted[1..], parse)
  {
    var tail := sorted[1..];
    forall j, k | 0 <= j < k < |tail| ensures !Precedes(parse(tail[k].updated), parse(tail[j].updated)) {
      assert tail[k] == sorted[k + 1] && tail[j] == sorted[j + 1];
    }
    forall e | e in tail ensures !Precedes(parse(e.updated), parse(sorted[0].updated)) {
      var k :| 0 <= k < |tail| && tail[k] == e;
      assert sorted[k + 1] == e;
    }
  }

  /** A paper that comes before the head of a sorted list can lead it. */
  lemma SortedBeforeHead(p: Paper, sorted: seq<Paper>, parse: Parse)
    requires SortedByTime(sorted, parse) && sorted != []
    requires Precedes(parse(p.updated), parse(sorted[0].updated))
    ensures SortedByTime([p] + sorted, parse)
  {
    forall e | e in sorted ensures !Precedes(parse(e.updated), parse(p.updated)) {
      var k :| 0 <= k < |sorted| && sorted[k] == e;
      if k > 0 {
        PrecedesThrough(parse(p.updated), parse(sorted[0].updated), parse(e.updated));
      }
    }
    SortedCons(p, sorted, parse);
  }

  /** Puts `p` into a sorted list, after every paper that is not later
      than it. */
  function InsertByTime(p: Paper, sorted: seq<Paper>, parse: Parse): (r: seq<Paper>)
    requires SortedByTime(sorted, parse)
    ensures multiset(r) == multiset(sorted) + multiset{p}
    ensures |r| == |sorted| + 1
    ensures forall e :: e in r <==> e in sorted || e == p
    ensures SortedByTime(r, parse)
    decreases |sorted|
  {
    if sorted == [] then [p]
    else if Precedes(parse(p.updated), parse(sorted[0].updated)) then
      SortedBeforeHead(p, sorted, parse);
      [p] + sorted
    else
      var head, tail := sorted[0], sorted[1..];
      assert sorted == [head] + tail;
      SortedTail(sorted, parse);
      var rest := InsertByTime(p, tail, parse);
      assert NoneBefore(head, rest, parse);
      SortedCons(head, rest, parse);
      [head] + rest
  }

  /** `df.sort_values("_ts", ascending=False)`: the papers rearranged, latest
      generation first and unparsed timestamps last. */
  function ByTime(papers: seq<Paper>, parse: Parse): (r: seq<Paper>)
    ensures multiset(r) == multiset(papers) && |r| == |papers|
    ensures SortedByTime(r, parse)
    decreases |papers|
  {
    if papers == [] then []
    else
      var n := |papers| - 1;
      assert papers == papers[..n] + [papers[n]];
      InsertByTime(papers[n], ByTime(papers[..n], parse), parse)
  }

  /** In a sorted list every timestamp that parses comes before every one
      that does not. */
  lemma UnparsedLast(r: seq<Paper>, parse: Parse, j: nat, k: nat)
    requires SortedByTime(r, parse) && j < |r| && k < |r|
    requires parse(r[j].updated).None? && parse(r[k].updated).Some?
    ensures k < j
  {
    if j < k {
      assert Precedes(parse(r[k].updated), parse(r[j].updated));
    }
  }

  // ---------------------------------------------------------------------------
  // HTML

  function Heading(week: string): string {
    "ArXiv Paper Summaries — " + week
  }

  /** The three entries before the papers. */
  function HtmlHeader(week: string, now: string): seq<string> {
    ["<h1>" + Heading(week) + "</h1>", "<p>Generated: " + now + " UTC</p>", "<hr/>"]
  }

  /** The four entries of one paper: title, authors and timestamp, summary,
      rule. A `NaN` title or author list prints as "nan". */
  function Block(p: Paper): seq<string> {
    ["<h2>" + CellText(p.title) + "</h2>",
     "<div><strong>Authors:</strong> " + p.authors + " &nbsp; <strong>Updated:</strong> " + p.updated + "</div>",
     "<p>" + p.summary + "</p>",
     "<hr/>"]
  }

  /** The blocks of the papers, in order. */
  function Blocks(papers: seq<Paper>): seq<string>
    decreases |papers|
  {
    if papers == [] then [] else Blocks(papers[..|papers| - 1]) + Block(papers[|papers| - 1])
  }

  /** Entries laid out four by four stay in place when four more follow. */
  lemma FourWideSnoc(before: seq<string>, last: seq<string>, n: nat, k: nat)
    requires |before| == 4 * n && |last| == 4 && k <= n
    ensures (before + last)[4 * k .. 4 * k + 4] == if k < n then before[4 * k .. 4 * k + 4] else last
  {
    if k < n {
      SliceLeft(before, last, 4 * k, 4 * k + 4);
    } else {
      SliceRight(before, last);
    }
  }

  /** Paper `k`'s block fills entries `4k` to `4k + 3`. */
  lemma {:induction false} BlocksLayout(papers: seq<Paper>)
    ensures |Blocks(papers)| == 4 * |papers|
    ensures forall k :: 0 <= k < |papers| ==> Blocks(papers)[4 * k .. 4 * k + 4] == Block(papers[k])
    decreases |papers|
  {
    if papers != [] {
      var n := |papers| - 1;
      var init := papers[..n];
      BlocksLayout(init);
      var before, last := Blocks(init), Block(papers[n]);
      assert Blocks(papers) == before + last && |last| == 4;
      forall k | 0 <= k < |papers| ensures Blocks(papers)[4 * k .. 4 * k + 4] == Block(papers[k]) {
        FourWideSnoc(before, last, n, k);
        if k < n {
          assert init[k] == papers[k];
        }
      }
    }
  }

  /** Builds the entry list: the header, then one block per paper. */
  method BuildHtml(week: string, now: string, papers: seq<Paper>) returns (html: seq<string>)
    ensures html == HtmlHeader(week, now) + Blocks(papers)
    ensures |html| == 3 + 4 * |papers|
  {
    html := HtmlHeader(week, now);
    for k := 0 to |papers|
      invariant html == HtmlHeader(week, now) + Blocks(papers[..k])
    {
      assert papers[..k + 1][..k] == papers[..k];
      html := html + Block(papers[k]);
    }
    assert papers[..|papers|] == papers;
    BlocksLayout(papers);
  }

  const Preamble := "\n<html>\n<head>\n<meta charset='utf-8'>\n<style>\nbody{font-family:Arial,Helvetica,sans-serif;padding:28px;}\nh1{font-size:22px;}\nh2{font-size:15px;margin-top:20px;}\np{font-size:12px;line-height:1.45}\n</style>\n</head>\n<body>\n"

  /** The document handed to the HTML renderer. */
  function HtmlDocument(html: seq<string>): string {
    Preamble + Join(html, "\n") + "</body></html>"
  }

  // ---------------------------------------------------------------------------
  // Text layout

  const Margin := 72          // left margin, top margin and bottom limit
  const HeaderStep := 20      // below each header line
  const TitleStep := 14       // below a title
  const LineStep := 12        // below the authors line, a summary piece, and after each paper
  const PaperBreak := 100     // a paper starts on a new page below this height
  const TitleLimit := 150
  const AuthorsLimit := 1000
  const SummaryLimit := 4000
  const PieceSize := 110
  const LetterHeight := 792   // US letter, in points

  /** A line of text drawn on a page at height `y` (from the bottom). */
  datatype Line = Line(page: nat, y: int, text: string)

  /** Where the next line goes. */
  datatype Cursor = Cursor(page: nat, y: int)

  /** The lines drawn from a cursor and where the cursor ends. */
  datatype Drawn = Drawn(lines: seq<Line>, end: Cursor)

  /** Starts a new page when the cursor is below `limit`. */
  function Fresh(h: int, c: Cursor, limit: int): (r: Cursor)
    ensures (r == c && c.y >= limit) || (c.y < limit && r == Cursor(c.page + 1, h - Margin))
  {
    if c.y < limit then Cursor(c.page + 1, h - Margin) else c
  }

  /** The summary pieces, each on a new page when the cursor is below the
      margin. */
  function PiecesDrawn(h: int, c: Cursor, pieces: seq<string>): Drawn
    decreases |pieces|
  {
    if pieces == [] then Drawn([], c)
    else
      var prev := PiecesDrawn(h, c, pieces[..|pieces| - 1]);
      var at := Fresh(h, prev.end, Margin);
      Drawn(prev.lines + [Line(at.page, at.y, pieces[|pieces| - 1])], Cursor(at.page, at.y - LineStep))
  }

  function AuthorsLine(p: Paper): string {
    "Authors: " + p.authors + " | Updated: " + p.updated
  }

  /** The summary cut to its first 4000 characters, in pieces of 110. */
  function Pieces(p: Paper): seq<string> {
    Chunks(Take(p.summary, SummaryLimit), PieceSize)
  }

  /** One paper: on a new page when the cursor is below 100, the title, the
      authors line, the summary pieces, then a gap. */
  function PaperDrawn(h: int, c: Cursor, p: Paper): Drawn
    requires p.title.Some?
  {
    var at := Fresh(h, c, PaperBreak);
    var body := PiecesDrawn(h, Cursor(at.page, at.y - TitleStep - LineStep), Pieces(p));
    Drawn([Line(at.page, at.y, Take(p.title.value, TitleLimit)),
           Line(at.page, at.y - TitleStep, Take(AuthorsLine(p), AuthorsLimit))] + body.lines,
          Cursor(body.end.page, body.end.y - LineStep))
  }

  predicate Titled(papers: seq<Paper>) {
    forall k :: 0 <= k < |papers| ==> papers[k].title.Some?
  }

  /** The papers, one after the other. */
  function PapersDrawn(h: int, c: Cursor, papers: seq<Paper>): Drawn
    requires Titled(papers)
    decreases |papers|
  {
    if papers == [] then Drawn([], c)
    else
      var prev := PapersDrawn(h, c, papers[..|papers| - 1]);
      var last := PaperDrawn(h, prev.end, papers[|papers| - 1]);
      Drawn(prev.lines + last.lines, last.end)
  }

  /** The two header lines, 20 points apart at the top of the first page. */
  function HeaderLines(h: int, week: string, now: string): seq<Line> {
    [Line(0, h - Margin, Heading(week)),
     Line(0, h - Margin - HeaderStep, "Generated: " + now + " UTC")]
  }

  /** Every line of the text layout on pages of height `h`. */
  function TextPages(h: int, week: string, now: string, papers: seq<Paper>): seq<Line>
    requires Titled(papers)
  {
    HeaderLines(h, week, now) + PapersDrawn(h, Cursor(0, h - Margin - 2 * HeaderStep), papers).lines
  }

  /** Draws the summary of one paper, piece by piece at offsets 0, 110,
      220, ... */
  method DrawPieces(h: int, c: Cursor, summary: string, lines: seq<Line>)
    returns (out: seq<Line>, page: nat, y: int)
    ensures out == lines + PiecesDrawn(h, c, Chunks(summary, PieceSize)).lines
    ensures Cursor(page, y) == PiecesDrawn(h, c, Chunks(summary, PieceSize)).end
  {
    var pieces := Chunks(summary, PieceSize);
    ChunksSizes(summary, PieceSize);
    out, page, y := lines, c.page, c.y;
    var i, j := 0, 0;
    while i < |summary|
      invariant 0 <= j <= |pieces| && i == j * PieceSize
      invariant out == lines + PiecesDrawn(h, c, pieces[..j]).lines
      invariant Cursor(page, y) == PiecesDrawn(h, c, pieces[..j]).end
      decreases |summary| - i
    {
      assert j < |pieces|;
      ChunkSlice(summary, PieceSize, j);
      assert pieces[..j + 1][..j] == pieces[..j];
      ghost var before := PiecesDrawn(h, c, pieces[..j]).lines;
      if y < Margin {
        page, y := page + 1, h - Margin;
      }
      var line := Line(page, y, summary[i..Min(i + PieceSize, |summary|)]);
      out := out + [line];
      AppendAssoc(lines, before, [line]);
      y := y - LineStep;
      i, j := i + PieceSize, j + 1;
    }
    assert j == |pieces|;
    assert pieces[..j] == pieces;
  }

  /** Draws one paper. */
  method DrawPaper(h: int, c: Cursor, p: Paper, lines: seq<Line>)
    returns (out: seq<Line>, page: nat, y: int)
    requires p.title.Some?
    ensures out == lines + PaperDrawn(h, c, p).lines
    ensures Cursor(page, y) == PaperDrawn(h, c, p).end
  {
    page, y := c.page, c.y;
    if y < PaperBreak {
      page, y := page + 1, h - Margin;
    }
    ghost var top := [Line(page, y, Take(p.title.value, TitleLimit)), Line(page, y - TitleStep, Take(AuthorsLine(p), AuthorsLimit))];
    out := lines + [Line(page, y, Take(p.title.value, TitleLimit))];
    y := y - TitleStep;
    out := out + [Line(page, y, Take(AuthorsLine(p), AuthorsLimit))];
    assert out == lines + top;
    y := y - LineStep;
    ghost var body := PiecesDrawn(h, Cursor(page, y), Pieces(p)).lines;
    out, page, y := DrawPieces(h, Cursor(page, y), Take(p.summary, SummaryLimit), out);
    AppendAssoc(lines, top, body);
    y := y - LineStep;
  }

  /** Drawing one more paper of a list. */
  lemma PapersDrawnStep(h: int, c: Cursor, papers: seq<Paper>, k: nat)
    requires k < |papers| && Titled(papers[..k]) && papers[k].title.Some?
    ensures Titled(papers[..k + 1])
    ensures var prev := PapersDrawn(h, c, papers[..k]);
      var last := PaperDrawn(h, prev.end, papers[k]);
      PapersDrawn(h, c, papers[..k + 1]) == Drawn(prev.lines + last.lines, last.end)
  {
    assert papers[..k + 1][..k] == papers[..k];
    assert forall j :: 0 <= j < k + 1 ==> papers[..k + 1][j] == papers[j];
  }

  /** The text layout: the header, then every paper; a `NaN` title makes
      the layout fail. */
  method Layout(h: int, week: string, now: string, papers: seq<Paper>) returns (r: Result<seq<Line>, Failure>)
    ensures !Titled(papers) ==> r == Err(TitleNotText)
    ensures Titled(papers) ==> r == Ok(TextPages(h, week, now, papers))
  {
    var y := h - Margin;
    var page: nat := 0;
    var lines := [Line(page, y, Heading(week))];
    y := y - HeaderStep;
    lines := lines + [Line(page, y, "Generated: " + now + " UTC")];
    y := y - HeaderStep;
    assert lines == HeaderLines(h, week, now) && y == h - Margin - 2 * HeaderStep;
    r := DrawPapers(h, Cursor(page, y), papers, lines);
  }

  /** The loop over the papers, below lines already drawn. */
  method DrawPapers(h: int, start: Cursor, papers: seq<Paper>, head: seq<Line>) returns (r: Result<seq<Line>, Failure>)
    requires start.page >= 0
    ensures !Titled(papers) ==> r == Err(TitleNotText)
    ensures Titled(papers) ==> r == Ok(head + PapersDrawn(h, start, papers).lines)
  {
    var lines := head;
    var page: nat, y := start.page, start.y;
    for k := 0 to |papers|
      invariant Titled(papers[..k])
      invariant lines == head + PapersDrawn(h, start, papers[..k]).lines
      invariant Cursor(page, y) == PapersDrawn(h, start, papers[..k]).end
    {
      if papers[k].title.None? {
        return Err(TitleNotText);
      }
      PapersDrawnStep(h, start, papers, k);
      ghost var before := PapersDrawn(h, start, papers[..k]).lines;
      ghost var drawn := PaperDrawn(h, Cursor(page, y), papers[k]).lines;
      lines, page, y := DrawPaper(h, Cursor(page, y), papers[k], lines);
      AppendAssoc(head, before, drawn);
    }
    assert papers[..|papers|] == papers;
    r := Ok(lines);
  }

  // ---------------------------------------------------------------------------
  // Properties of the text layout

  /** The line after `a` is lower on the same page, or at the top of the
      next page. */
  predicate Follows(h: int, a: Line, b: Line) {
    (b.page == a.page && b.y < a.y) || (b.page == a.page + 1 && b.y == h - Margin)
  }

  predicate Chained(h: int, lines: seq<Line>) {
    forall k :: 0 < k < |lines| ==> Follows(h, lines[k - 1], lines[k])
  }

  /** The first line drawn from cursor `c`: at or below it, or at the top
      of the next page. */
  predicate StartsAt(h: int, c: Cursor, l: Line) {
    (l.page == c.page && l.y <= c.y) || (l.page == c.page + 1 && l.y == h - Margin)
  }

  /** A drawing is chained, starts at its cursor, and leaves the cursor
      below its last line. */
  predicate WellPlaced(h: int, c: Cursor, d: Drawn) {
    && Chained(h, d.lines)
    && (d.lines == [] ==> d.end == c)
    && (d.lines != [] ==>
          && StartsAt(h, c, d.lines[0])
          && d.end.page == d.lines[|d.lines| - 1].page
          && d.end.y < d.lines[|d.lines| - 1].y)
  }

  /** Appending a well-placed drawing that starts at the cursor where
      another one ends keeps the lines chained. */
  lemma JoinPlaced(h: int, c: Cursor, d: Drawn, e: Drawn)
    requires WellPlaced(h, c, d) && WellPlaced(h, d.end, e)
    ensures WellPlaced(h, c, Drawn(d.lines + e.lines, if e.lines == [] then d.end else e.end))
  {
    var all := d.lines + e.lines;
    if d.lines != [] && e.lines != [] {
      forall k | 0 < k < |all| ensures Follows(h, all[k - 1], all[k]) {
        if k < |d.lines| {
          assert all[k - 1] == d.lines[k - 1] && all[k] == d.lines[k];
        } else if k == |d.lines| {
          assert all[k] == e.lines[0];
        } else {
          assert all[k - 1] == e.lines[k - 1 - |d.lines|] && all[k] == e.lines[k - |d.lines|];
        }
      }
    } else if d.lines == [] {
      assert all == e.lines;
    } else {
      assert all == d.lines;
    }
  }

  lemma {:induction false} PiecesPlaced(h: int, c: Cursor, pieces: seq<string>)
    ensures WellPlaced(h, c, PiecesDrawn(h, c, pieces))
    ensures PiecesDrawn(h, c, pieces).end.page >= c.page
    decreases |pieces|
  {
    if pieces != [] {
      var prev := PiecesDrawn(h, c, pieces[..|pieces| - 1]);
      PiecesPlaced(h, c, pieces[..|pieces| - 1]);
      var at := Fresh(h, prev.end, Margin);
      var one := Drawn([Line(at.page, at.y, pieces[|pieces| - 1])], Cursor(at.page, at.y - LineStep));
      assert WellPlaced(h, prev.end, one);
      JoinPlaced(h, c, prev, one);
    }
  }

  lemma PaperPlaced(h: int, c: Cursor, p: Paper)
    requires p.title.Some?
    ensures WellPlaced(h, c, PaperDrawn(h, c, p))
    ensures PaperDrawn(h, c, p).lines != []
  {
    var at := Fresh(h, c, PaperBreak);
    var start := Cursor(at.page, at.y - TitleStep - LineStep);
    var body := PiecesDrawn(h, start, Pieces(p));
    PiecesPlaced(h, start, Pieces(p));
    var head := Drawn([Line(at.page, at.y, Take(p.title.value, TitleLimit)),
                       Line(at.page, at.y - TitleStep, Take(AuthorsLine(p), AuthorsLimit))], start);
    assert WellPlaced(h, c, head);
    JoinPlaced(h, c, head, body);
    var both := Drawn(head.lines + body.lines, if body.lines == [] then head.end else body.end);
    assert PaperDrawn(h, c, p).lines == both.lines;
  }

  lemma {:induction false} PapersPlaced(h: int, c: Cursor, papers: seq<Paper>)
    requires Titled(papers)
    ensures WellPlaced(h, c, PapersDrawn(h, c, papers))
    decreases |papers|
  {
    if papers != [] {
      var prev := PapersDrawn(h, c, papers[..|papers| - 1]);
      var p := papers[|papers| - 1];
      PapersPlaced(h, c, papers[..|papers| - 1]);
      PaperPlaced(h, prev.end, p);
      JoinPlaced(h, c, prev, PaperDrawn(h, prev.end, p));
    }
  }

  /** Consecutive lines of the layout are on the same page, lower down, or
      the second one is at the top of the next page. */
  lemma TextPagesChained(h: int, week: string, now: string, papers: seq<Paper>)
    requires Titled(papers)
    ensures Chained(h, TextPages(h, week, now, papers))
    ensures TextPages(h, week, now, papers)[0].page == 0
  {
    var start := Cursor(0, h - Margin - 2 * HeaderStep);
    var head := Drawn(HeaderLines(h, week, now), start);
    PapersPlaced(h, start, papers);
    JoinPlaced(h, Cursor(0, h - Margin), head, PapersDrawn(h, start, papers));
  }

  /** No line is above the top margin, when the cursor starts there. */
  lemma {:induction false} PiecesBelowTop(h: int, c: Cursor, pieces: seq<string>)
    requires c.y <= h - Margin
    ensures forall l :: l in PiecesDrawn(h, c, pieces).lines ==> l.y <= h - Margin
    ensures PiecesDrawn(h, c, pieces).end.y <= h - Margin
    decreases |pieces|
  {
    if pieces != [] {
      PiecesBelowTop(h, c, pieces[..|pieces| - 1]);
    }
  }

  lemma {:induction false} PapersBelowTop(h: int, c: Cursor, papers: seq<Paper>)
    requires Titled(papers) && c.y <= h - Margin
    ensures forall l :: l in PapersDrawn(h, c, papers).lines ==> l.y <= h - Margin
    ensures PapersDrawn(h, c, papers).end.y <= h - Margin
    decreases |papers|
  {
    if papers != [] {
      var prev := PapersDrawn(h, c, papers[..|papers| - 1]);
      PapersBelowTop(h, c, papers[..|papers| - 1]);
      var p := papers[|papers| - 1];
      var at := Fresh(h, prev.end, PaperBreak);
      PiecesBelowTop(h, Cursor(at.page, at.y - TitleStep - LineStep), Pieces(p));
    }
  }

  /** With pages of height at least 144 no summary piece is below the
      margin. */
  lemma {:induction false} PiecesAboveMargin(h: int, c: Cursor, pieces: seq<string>)
    requires h >= 2 * Margin
    ensures forall l :: l in PiecesDrawn(h, c, pieces).lines ==> l.y >= Margin
    decreases |pieces|
  {
    if pieces != [] {
      PiecesAboveMargin(h, c, pieces[..|pieces| - 1]);
    }
  }

  lemma {:induction false} PapersAboveMargin(h: int, c: Cursor, papers: seq<Paper>)
    requires Titled(papers) && h >= 158
    ensures forall l :: l in PapersDrawn(h, c, papers).lines ==> l.y >= Margin
    decreases |papers|
  {
    if papers != [] {
      var prev := PapersDrawn(h, c, papers[..|papers| - 1]);
      PapersAboveMargin(h, c, papers[..|papers| - 1]);
      var p := papers[|papers| - 1];
      var at := Fresh(h, prev.end, PaperBreak);
      PiecesAboveMargin(h, Cursor(at.page, at.y - TitleStep - LineStep), Pieces(p));
    }
  }

  /** Every line is at most at the top margin, and with pages at least 158
      points high every line of a paper is at least at the bottom margin. */
  lemma TextPagesInMargins(h: int, week: string, now: string, papers: seq<Paper>)
    requires Titled(papers)
    ensures forall l :: l in TextPages(h, week, now, papers) ==> l.y <= h - Margin
    ensures h >= 158 ==> forall k :: 2 <= k < |TextPages(h, week, now, papers)| ==>
      TextPages(h, week, now, papers)[k].y >= Margin
  {
    var start := Cursor(0, h - Margin - 2 * HeaderStep);
    PapersBelowTop(h, start, papers);
    var body := PapersDrawn(h, start, papers).lines;
    assert TextPages(h, week, now, papers) == HeaderLines(h, week, now) + body;
    if h >= 158 {
      PapersAboveMargin(h, start, papers);
      forall k | 2 <= k < |TextPages(h, week, now, papers)| ensures TextPages(h, week, now, papers)[k].y >= Margin {
        assert TextPages(h, week, now, papers)[k] == body[k - 2];
        assert body[k - 2] in body;
      }
    }
  }

  /** 158 is the least height that keeps every line of a paper on the
      page: at 157 the first paper starts a new page and its authors line
      is drawn at 71. */
  lemma MarginBoundTight()
    ensures var p := Paper(Some("t"), "a", "u", "", "w");
      TextPages(157, "w", "n", [p])[3].y == Margin - 1
  {
    var p := Paper(Some("t"), "a", "u", "", "w");
    assert [p][..0] == [];
    assert Pieces(p) == [];
    assert PapersDrawn(157, Cursor(0, 45), [p]).lines == PaperDrawn(157, Cursor(0, 45), p).lines;
  }

  /** The texts of some lines. */
  function Texts(lines: seq<Line>): (r: seq<string>)
    ensures |r| == |lines| && forall k :: 0 <= k < |lines| ==> r[k] == lines[k].text
  {
    seq(|lines|, k requires 0 <= k < |lines| => lines[k].text)
  }

  /** What one paper prints: its title cut to 150 characters, its authors
      line cut to 1000, and its summary cut to 4000 in pieces of 110. */
  function PaperTexts(p: Paper): seq<string>
    requires p.title.Some?
  {
    [Take(p.title.value, TitleLimit), Take(AuthorsLine(p), AuthorsLimit)] + Pieces(p)
  }

  function AllPaperTexts(papers: seq<Paper>): seq<string>
    requires Titled(papers)
    decreases |papers|
  {
    if papers == [] then [] else AllPaperTexts(papers[..|papers| - 1]) + PaperTexts(papers[|papers| - 1])
  }

  lemma {:induction false} PiecesTexts(h: int, c: Cursor, pieces: seq<string>)
    ensures Texts(PiecesDrawn(h, c, pieces).lines) == pieces
    decreases |pieces|
  {
    if pieces != [] {
      PiecesTexts(h, c, pieces[..|pieces| - 1]);
      assert pieces == pieces[..|pieces| - 1] + [pieces[|pieces| - 1]];
    }
  }

  lemma TextsAppend(a: seq<Line>, b: seq<Line>)
    ensures Texts(a + b) == Texts(a) + Texts(b)
  {
  }

  /** One paper prints its own texts, wherever it starts. */
  lemma PaperTextsDrawn(h: int, c: Cursor, p: Paper)
    requires p.title.Some?
    ensures Texts(PaperDrawn(h, c, p).lines) == PaperTexts(p)
  {
    var at := Fresh(h, c, PaperBreak);
    var body := PiecesDrawn(h, Cursor(at.page, at.y - TitleStep - LineStep), Pieces(p));
    PiecesTexts(h, Cursor(at.page, at.y - TitleStep - LineStep), Pieces(p));
    TextsAppend([Line(at.page, at.y, Take(p.title.value, TitleLimit)),
                 Line(at.page, at.y - TitleStep, Take(AuthorsLine(p), AuthorsLimit))], body.lines);
  }

  lemma {:induction false} PapersTexts(h: int, c: Cursor, papers: seq<Paper>)
    requires Titled(papers)
    ensures Texts(PapersDrawn(h, c, papers).lines) == AllPaperTexts(papers)
    decreases |papers|
  {
    if papers != [] {
      var n := |papers| - 1;
      var prev := PapersDrawn(h, c, papers[..n]);
      PapersTexts(h, c, papers[..n]);
      PaperTextsDrawn(h, prev.end, papers[n]);
      TextsAppend(prev.lines, PaperDrawn(h, prev.end, papers[n]).lines);
    }
  }

  /** The layout prints the heading, the generation time, and each paper's
      texts in order, whatever the page height. */
  lemma TextPagesTexts(h: int, week: string, now: string, papers: seq<Paper>)
    requires Titled(papers)
    ensures Texts(TextPages(h, week, now, papers))
         == [Heading(week), "Generated: " + now + " UTC"] + AllPaperTexts(papers)
  {
    var start := Cursor(0, h - Margin - 2 * HeaderStep);
    PapersTexts(h, start, papers);
    TextsAppend(HeaderLines(h, week, now), PapersDrawn(h, start, papers).lines);
  }

  /** Each summary piece holds at most 110 characters, all but the last
      exactly 110, and together they give back the summary's first 4000
      characters. */
  lemma PiecesOfSummary(p: Paper)
    ensures Flatten(Pieces(p)) == Take(p.summary, SummaryLimit)
    ensures forall k :: 0 <= k < |Pieces(p)| ==> 0 < |Pieces(p)[k]| <= PieceSize
    ensures forall k :: 0 <= k < |Pieces(p)| - 1 ==> |Pieces(p)[k]| == PieceSize
    ensures |Pieces(p)| * PieceSize - PieceSize < |Take(p.summary, SummaryLimit)| <= |Pieces(p)| * PieceSize
  {
    ChunksFlatten(Take(p.summary, SummaryLimit), PieceSize);
    ChunksSizes(Take(p.summary, SummaryLimit), PieceSize);
  }

  // ---------------------------------------------------------------------------
  // The whole run

  /** What the run leaves in the output directory: the PDF the HTML
      renderer makes of the document, or the text layout. */
  datatype Output = Rendered(document: string) | TextPdf(lines: seq<Line>)

  /** The `week_of_update` column of the prepared papers. */
  function Weeks(papers: seq<Paper>): (r: seq<string>)
    ensures |r| == |papers| && forall i :: 0 <= i < |papers| ==> r[i] == papers[i].week
  {
    seq(|papers|, i requires 0 <= i < |papers| => papers[i].week)
  }

  /** The generator end to end. `rendererWorks` says whether the HTML
      renderer is installed and succeeds; `nowHtml` and `nowText` are the
      two readings of the clock, `today` the UTC date. */
  method Generate(stored: Option<Frame>, parse: Parse, today: Date, nowHtml: string, nowText: string, rendererWorks: bool)
    returns (r: Result<Output, Failure>)
    requires stored.Some? ==> stored.value.Valid()
    requires IsValid(today)
    ensures Prepare(stored).Err? ==> r == Err(Prepare(stored).error)
    ensures Prepare(stored).Ok? ==>
      var papers := Prepare(stored).value;
      var week := HeadlineWeekAsWritten(Weeks(papers), today);
      var sorted := ByTime(papers, parse);
      && (rendererWorks ==> r == Ok(Rendered(HtmlDocument(HtmlHeader(week, nowHtml) + Blocks(sorted)))))
      && (!rendererWorks && Titled(sorted) ==> r == Ok(TextPdf(TextPages(LetterHeight, week, nowText, sorted))))
      && (!rendererWorks && !Titled(sorted) ==> r == Err(TitleNotText))
  {
    var prepared := Prepare(stored);
    if prepared.Err? {
      return Err(prepared.error);
    }
    r := Publish(prepared.value, parse, today, nowHtml, nowText, rendererWorks);
  }

  /** The prepared papers, headed by their week and sorted newest first,
      rendered as HTML or, failing that, laid out as text pages. */
  method Publish(papers: seq<Paper>, parse: Parse, today: Date, nowHtml: string, nowText: string, rendererWorks: bool)
    returns (r: Result<Output, Failure>)
    requires IsValid(today)
    ensures var week := HeadlineWeekAsWritten(Weeks(papers), today);
      var sorted := ByTime(papers, parse);
      && (rendererWorks ==> r == Ok(Rendered(HtmlDocument(HtmlHeader(week, nowHtml) + Blocks(sorted)))))
      && (!rendererWorks && Titled(sorted) ==> r == Ok(TextPdf(TextPages(LetterHeight, week, nowText, sorted))))
      && (!rendererWorks && !Titled(sorted) ==> r == Err(TitleNotText))
  {
    var week := HeadlineWeekAsWritten(Weeks(papers), today);
    var sorted := ByTime(papers, parse);
    var html := BuildHtml(week, nowHtml, sorted);
    if rendererWorks {
      return Ok(Rendered(HtmlDocument(html)));
    }
    var pages := Layout(LetterHeight, week, nowText, sorted);
    if pages.Err? {
      return Err(pages.error);
    }
    r := Ok(TextPdf(pages.value));
  }
}
