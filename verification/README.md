# arxiv_summarizer, modelled in Dafny

This project models the four stages of the arxiv_summarizer pipeline and
proves properties of them:

- **fetch** (`app/fetch_arxiv.py`). For each category it turns the feed's
  entries into one record per paper. It stamps each record with the fetch
  time and that time's "Week of <Monday>" label. It then stacks all the
  records into one table and puts the columns in a canonical order.
- **summarise** (`app/summarize_papers.py`). It keeps the first `limit`
  rows of the fetched table and finds the rows whose `summary_short` is
  missing or `""`. It asks the language-model service about those rows, a
  batch at a time, writes each answer into its own row, and saves a
  checkpoint of the whole table after every batch.
- **dashboard** (`app/generate_dashboard.py`). The data side of the
  Streamlit page:
  - normalising the summarised table when it is loaded;
  - the category menu and the category filter;
  - the "last updated" caption;
  - the two actions that write to the store, "Regenerate summary" and
    "Generate summary".
- **newsletter** (`app/newsletter_generator.py`). It prepares the
  summarised table and chooses the headline week. It orders the papers by
  the time their summary was generated. It then builds the HTML document
  or, when the HTML renderer is unavailable, lays the digest out as text
  lines on letter-sized pages.

The modules are:

- `Table`: a pandas data frame as named columns over rows of optional
  texts. `None` stands for `NaN`. The module models column assignment,
  masked assignment (`df.loc[mask, c] = v`), `head`, `reindex` and
  `concat`.
- `Text`: Python's `strip`, `join`, string order, `max` and `mode`.
- `Calendar`: proleptic Gregorian dates with Python's day numbers, ISO
  dates and `week_of_iso`.
- `Seqs`: generic sequence facts.
- `Wrappers`: `Option` and `Result`.
- One module per stage: `Fetch`, `Summarize`, `Dashboard` and
  `Newsletter`.

Some things are parameters of the model:

- The summariser's service is a function from a row and its request text
  to a reply. Each row is asked once per run, and two rows with the same
  request may get different answers.
- The thread pool's completion order is an arbitrary order of the batch.
- The clock is a parameter holding the ISO text it printed and the civil
  date of that text.
- Timestamp parsing is a parameter.
- Files are `Option<Frame>` values: `None` when the file does not exist.

## Model

| member | source | states |
|---|---|---|
| Calendar.MonthsFillYear | app/fetch_arxiv.py:25 | the twelve month lengths add up to the year's length, so the day numbering below is consistent |
| Calendar.DaysBeforeYearClosedForm | app/fetch_arxiv.py:25 | the days before year y counted year by year equal 365(y-1) + (y-1)/4 - (y-1)/100 + (y-1)/400, the day count behind Python's dates |
| Calendar.NextDayStep | app/fetch_arxiv.py:25 | stepping to the next calendar day raises the day number by exactly one and is undone by the previous-day step |
| Calendar.PrevDayStep | app/fetch_arxiv.py:25 | stepping back a day lowers the day number by exactly one and is undone by the next-day step |
| Calendar.OrdinalRange | app/fetch_arxiv.py:24-25 | every valid date from 0001-01-01 to 9999-12-31 has a day number between 1 and 3652059 |
| Calendar.FromOrdinal | app/fetch_arxiv.py:25 | the date with a given day number is a valid date carrying that day number |
| Calendar.FromOrdinalOfOrdinal | app/fetch_arxiv.py:25 | converting a date to its day number and back gives the same date |
| Calendar.OrdinalInjective | app/fetch_arxiv.py:25 | different dates have different day numbers |
| Calendar.MondayOf | app/fetch_arxiv.py:25 | subtracting `dayofweek` days gives a Monday that lies 0 to 6 days before the date and exactly `dayofweek` days before it |
| Calendar.MondayOfUnique | app/fetch_arxiv.py:25 | the Monday found is the only Monday within the six days up to the date |
| Calendar.MondayOfMonday | app/fetch_arxiv.py:25 | a Monday is its own week's Monday |
| Calendar.IsoDate | app/fetch_arxiv.py:26 | `date.isoformat()` is ten characters long |
| Calendar.ParseDigitsOfDigits | app/fetch_arxiv.py:26 | zero-padded decimal digits read back as the number they were written from |
| Calendar.ParseIsoDateOfIsoDate | app/fetch_arxiv.py:26 | an ISO date text reads back as the date it was written from |
| Calendar.WeekOfIsoIdempotent | app/fetch_arxiv.py:22-28 | the label is "Week of " and the ISO date of the Monday, and labelling that Monday again gives the same label |
| Calendar.WeekOfIsoSameWeek | app/generate_dashboard.py:55-61 | two dates get the same label exactly when they share a Monday |
| Calendar.WeekOfWednesdayExample | app/fetch_arxiv.py:22-28 | Wednesday 2025-03-12 is labelled "Week of 2025-03-10" |
| Text.Strip | app/summarize_papers.py:19 | `str.strip()` leaves no white space at either end, and it is empty exactly when the text is all white space |
| Text.StripSlice | app/summarize_papers.py:34 | the stripped text is the slice of the original between its leading and trailing white space |
| Text.StripIdempotent | app/summarize_papers.py:34 | stripping twice is stripping once |
| Text.ReplaceNewlines | app/fetch_arxiv.py:46-47 | `replace("\n", " ")` keeps the length and leaves no line break |
| Text.ReplaceNewlinesAt | app/fetch_arxiv.py:46-47 | each character is kept, except that a line break becomes a space |
| Text.JoinEmpty | app/fetch_arxiv.py:50 | `", ".join` gives "" exactly for no parts or a single empty part |
| Text.JoinSnoc | app/fetch_arxiv.py:50 | joining one more part appends the separator and that part |
| Text.LessTransitive | app/generate_dashboard.py:155 | Python's string order is transitive |
| Text.LessTotal | app/generate_dashboard.py:155 | Python's string order relates any two different texts |
| Text.SortedUnique | app/generate_dashboard.py:155 | `sorted(unique())` is strictly increasing and holds exactly the values given |
| Text.SortedListingUnique | app/generate_dashboard.py:155 | two strictly increasing listings of the same values are equal, so the menu is determined by its values |
| Text.MaxOf | app/generate_dashboard.py:170 | `max` returns one of the values, and no value is greater |
| Text.Mode | app/newsletter_generator.py:28 | `mode().iloc[0]` is a value that occurs at least as often as any other, and it is the least in string order among those that tie |
| Seqs.ChunksFlatten | app/summarize_papers.py:56-57 | the slices `[i:i+size]` for i = 0, size, 2·size, … put back together give the whole sequence |
| Seqs.ChunksSizes | app/newsletter_generator.py:106 | each slice holds between 1 and `size` items, all but the last exactly `size` |
| Seqs.ChunkSlice | app/summarize_papers.py:56-57 | chunk k is the slice starting at offset k·size |
| Seqs.IndicesWhere | app/summarize_papers.py:45-47 | a boolean mask selects exactly the rows where it holds, in table order |
| Seqs.Filter | app/fetch_arxiv.py:71 | a list comprehension with a condition keeps exactly the items satisfying it, never adding any |
| Table.Head | app/summarize_papers.py:42 | `head(n)` keeps the columns and a prefix of the rows: n of them, or all but the last -n for negative n |
| Table.Assign | app/summarize_papers.py:50 | `df[c] = values` sets column c in every row, adds c at the end when it is new, and leaves every other cell alone |
| Table.SetWhere | app/generate_dashboard.py:260-262 | `df.loc[mask, c] = v` sets c in the selected rows, leaves `NaN` in the other rows of a new column, and leaves every other cell alone |
| Table.SetThree | app/generate_dashboard.py:260-262 | three masked assignments to three distinct columns give each selected row the three values and leave everything else alone |
| Table.SetCell | app/summarize_papers.py:69 | `df.loc[idx, c] = v` changes exactly one cell |
| Table.Reindex | app/fetch_arxiv.py:72 | `reindex(columns=...)` gives exactly the listed columns, with the old cells where the column existed and `NaN` elsewhere |
| Table.Concat | app/generate_dashboard.py:221 | `concat([a, b], ignore_index=True, sort=False)` stacks the rows under a's columns followed by b's new columns, filling `NaN` where a frame lacks a column |
| Fetch.Normalise | app/fetch_arxiv.py:46-47 | a normalised title or abstract has no line break and is empty exactly when the text is blank |
| Fetch.NormaliseIdempotent | app/fetch_arxiv.py:46-47 | a normalised text is already stripped, so normalising again changes nothing |
| Fetch.AuthorsLine | app/fetch_arxiv.py:50 | a single author's name is the authors field itself |
| Fetch.AuthorsLineEmpty | app/fetch_arxiv.py:50 | the authors field is empty exactly when the entry has no authors list, an empty list, or one author with an empty name |
| Fetch.RecordFields | app/fetch_arxiv.py:44-54 | each record carries the category, the fetch time and week, and the link and published date unchanged, with title and abstract normalised |
| Fetch.RecordsAt | app/fetch_arxiv.py:42-55 | record k is built from feed entry k, one record per entry |
| Fetch.FetchPapers | app/fetch_arxiv.py:33-55 | one clock reading stamps every record of a category, and its week label is the week of that reading |
| Fetch.CategoryParts | app/fetch_arxiv.py:62-66 | one list of records per category, in category order |
| Fetch.AllPapersAt | app/fetch_arxiv.py:62-66 | record j of category k sits right after the records of the categories before k |
| Fetch.CollectPapers | app/fetch_arxiv.py:60-66 | the loop extends the list with each category's records in turn |
| Fetch.RecordsFrame | app/fetch_arxiv.py:68 | a frame made from records has the record keys as columns (none without records) and each record's fields as its row |
| Fetch.OrderByPermutation | app/fetch_arxiv.py:71 | the new column order is a rearrangement of the existing columns, none lost or repeated |
| Fetch.OrderByKeepsKnown | app/fetch_arxiv.py:71 | the canonical names that exist come in canonical order |
| Fetch.OrderByKeepsExtra | app/fetch_arxiv.py:71 | the other columns keep their existing order |
| Fetch.OrderByKnownFirst | app/fetch_arxiv.py:71 | no canonical name comes after a non-canonical one |
| Fetch.OrderBySameNames | app/fetch_arxiv.py:70-71 | columns that are exactly the canonical names end in the canonical order |
| Fetch.OrderRecordKeys | app/fetch_arxiv.py:44-71 | the record keys reorder to exactly the canonical column list |
| Fetch.RecordsFrameOrdered | app/fetch_arxiv.py:68-72 | reordering the records' frame gives the records under the canonical columns, or an empty frame without records |
| Fetch.FetchAllCategories | app/fetch_arxiv.py:57-76 | the saved table is every category's records, in order, under the canonical columns |
| Fetch.FetchedWithinTotal | app/fetch_arxiv.py:19-20 | five categories of at most 100 // 5 = 20 records each give at most 100 records |
| Fetch.FetchWithQuota | app/fetch_arxiv.py:57-80 | `fetch_all_categories()` with its defaults saves every category's records under the canonical columns, at most 100 rows when each feed returns no more than it was asked for |
| Summarize.SummarizePaper | app/summarize_papers.py:18-37 | a blank abstract gives the fixed message without a request; otherwise the stripped answer to that row's request, or the failure sentinel when the call fails |
| Summarize.BlankAbstractSkipsClient | app/summarize_papers.py:19-20 | for a blank abstract the result does not depend on the service at all |
| Summarize.SummarizePaperUsesOneReply | app/summarize_papers.py:22-34 | the result depends only on the service's reply to the one prompt built from the title and abstract |
| Summarize.SummarizePaperStripped | app/summarize_papers.py:34 | every result is stripped, the fixed messages included |
| Summarize.Prepare | app/summarize_papers.py:42-51 | the working table keeps the first `limit` rows and always has a `summary_short` column |
| Summarize.PrepareKeepsRows | app/summarize_papers.py:42-51 | the working table keeps every cell of the kept rows, and a `summary_short` column that had to be added is "" throughout |
| Summarize.Pending | app/summarize_papers.py:45-47 | the rows still to do are exactly those whose `summary_short` is `NaN` or "", in table order |
| Summarize.AllPendingWhenColumnAdded | app/summarize_papers.py:49-51 | without a `summary_short` column every row is to do |
| Summarize.MissingAbstractFails | app/summarize_papers.py:62-72 | a `NaN` abstract makes `abstract.strip()` raise in the worker, so the row gets the failure sentinel and not the "no abstract" message |
| Summarize.Written | app/summarize_papers.py:66-72 | the table after writing a set of rows holds each written row's result in `summary_short` and changes nothing else |
| Summarize.WrittenNone | app/summarize_papers.py:66-72 | writing no rows leaves the table as it was |
| Summarize.WrittenStep | app/summarize_papers.py:69 | writing one more row is one more cell assignment |
| Summarize.WriteInOrderIsWritten | app/summarize_papers.py:66-72 | writing results one at a time in any duplicate-free completion order gives the table for the set of rows written |
| Summarize.CompletionOrderIrrelevant | app/summarize_papers.py:66 | two completion orders of the same rows give the same table |
| Summarize.RunBatch | app/summarize_papers.py:60-72 | one batch, with its results written in whatever order the pool completes them, adds exactly the batch's rows to the written set |
| Summarize.CheckpointLog | app/summarize_papers.py:56-75 | one saved snapshot per batch |
| Summarize.LogStep | app/summarize_papers.py:75 | the snapshot saved after a batch is the table with every row of the batches so far written |
| Summarize.NextBatch | app/summarize_papers.py:56-75 | one iteration runs the batch and appends its snapshot to the log |
| Summarize.AllBatchesDone | app/summarize_papers.py:56-57 | the batches together cover exactly the rows to do |
| Summarize.RunEveryBatch | app/summarize_papers.py:56-80 | after every batch, every row to do is written and one snapshot per batch has been saved |
| Summarize.RunBatches | app/summarize_papers.py:56-80 | a worker count of zero or less raises at the first batch; a missing title or abstract column raises at the first batch; otherwise every row to do is written with one snapshot per batch |
| Summarize.LoadWork | app/summarize_papers.py:42-53 | reading gives the working table and exactly its rows to do |
| Summarize.SummarizeAll | app/summarize_papers.py:40-83 | a missing fetched table raises before anything is saved; otherwise the run returns the working table with every row to do written, or raises for a zero batch size, no workers or a missing column; its checkpoints are one snapshot per batch |
| Summarize.EmptyResultIffEmptyReply | app/summarize_papers.py:34-46 | a worker's result is "" exactly when the service answered with white space only |
| Summarize.WrittenPending | app/summarize_papers.py:45-69 | after the run a row is still to do exactly when it was to do and its answer was blank |
| Summarize.RunLeavesOnlyEmptyResultsPending | app/summarize_papers.py:40-83 | after a completed run the only rows a later run would pick up are those whose answer was blank |
| Summarize.LastCheckpointIsResult | app/summarize_papers.py:56-83 | the last checkpoint saved is the table the run returns, and there are ceil(rows to do / batch size) checkpoints |
| Dashboard.StripNamesAt | app/generate_dashboard.py:72 | each column name loses its surrounding white space and nothing else |
| Dashboard.RenamedCells | app/generate_dashboard.py:72 | renaming the columns keeps every cell in its position |
| Dashboard.AddMissing | app/generate_dashboard.py:75-77 | each listed column that is missing is added at the end, in list order, filled with "", and existing columns are kept |
| Dashboard.AddedAbsent | app/generate_dashboard.py:76-77 | adding one missing name as a blank last column keeps the promise of the loop so far |
| Dashboard.AddedPresent | app/generate_dashboard.py:76 | a name the table already has changes nothing |
| Dashboard.CopySummary | app/generate_dashboard.py:73-74 | `summary` is added as a copy of `summary_short` exactly when only the latter exists |
| Dashboard.LoadProcessed | app/generate_dashboard.py:65-78 | no file gives an empty frame; an empty table is returned as read; otherwise the table is normalised |
| Dashboard.LoadedColumns | app/generate_dashboard.py:71-77 | after loading, the table keeps its rows and stripped columns and has all seven dashboard columns, and no column beyond those and the stripped names |
| Dashboard.LoadedCells | app/generate_dashboard.py:71-77 | after loading, stored cells are unchanged, an added `summary` copies `summary_short` (or is ""), and every other added column is "" |
| Dashboard.LoadedIsNormalised | app/generate_dashboard.py:71-77 | stripping, copying and adding compose to the normalised table |
| Dashboard.Present | app/generate_dashboard.py:155 | `dropna()` keeps exactly the present values |
| Dashboard.CategoryOptions | app/generate_dashboard.py:155 | the menu is "All" followed by each present category once, in increasing order; an empty table gives just "All" |
| Dashboard.RowsOfCategory | app/generate_dashboard.py:161 | `df["category"] == c` selects exactly the rows of category c, in table order |
| Dashboard.FilterCategory | app/generate_dashboard.py:159-161 | "All" shows the whole table; another choice shows exactly the rows of that category, or raises without a category column |
| Dashboard.MenuReachesEveryRow | app/generate_dashboard.py:155-161 | each present category is in the menu, and choosing it shows its row |
| Dashboard.LatestOf | app/generate_dashboard.py:169-170 | no caption when no cell is truthy; `NaN` when only `NaN`s are truthy; a failure when `NaN`s and texts are both selected; otherwise the greatest text in string order |
| Dashboard.LatestSkippingNaN | app/generate_dashboard.py:168-173 | the evidently intended caption: the greatest non-empty text, the `NaN`s skipped |
| Dashboard.CaptionsAgree | app/generate_dashboard.py:169-170 | the two captions differ only when `NaN`s and texts are both selected |
| Dashboard.MixedCaptionFails | app/generate_dashboard.py:169-170 | one timestamp beside a `NaN` makes `max` fail, where the intended caption shows that timestamp |
| Dashboard.NonEmptyTexts | app/generate_dashboard.py:170 | exactly the non-empty present texts are compared |
| Dashboard.AbstractOf | app/generate_dashboard.py:245 | `row.get('abstract', '')` is "" when the table has no abstract column |
| Dashboard.Generated | app/generate_dashboard.py:243-254 | the stored summary is the stripped answer, or "ERROR: " and the exception text |
| Dashboard.FirstWithTitle | app/generate_dashboard.py:229-230 | the selected row is the first row carrying the picked title |
| Dashboard.TitleMatches | app/generate_dashboard.py:259 | the mask selects exactly the stored rows with the picked title, and none for a `NaN` title |
| Dashboard.Regenerate | app/generate_dashboard.py:228-263 | "Regenerate summary" fails without a title, a key, a store or a title column; otherwise every stored row with the title gets the new summary, the time and its week, and nothing else changes |
| Dashboard.RowOf | app/generate_dashboard.py:216 | `r.to_dict()` is a one-row table with the raw row's cells |
| Dashboard.GeneratedRow | app/generate_dashboard.py:216-217 | the new record is the raw row with the summary, the time and its week set |
| Dashboard.AppendGenerated | app/generate_dashboard.py:192-225 | "Generate summary" fails without a title column or a key; otherwise the new record becomes the whole store, or is added after the stored rows with their columns first and `NaN` in the gaps |
| Newsletter.Prepare | app/newsletter_generator.py:16-24 | no file, no summary column, or no timestamp or week column raises; otherwise one paper per row with `summary` (or `summary_short` when `summary` is absent) and missing texts filled with "" |
| Newsletter.MissingSummaryStaysEmpty | app/newsletter_generator.py:22 | a missing `summary` cell prints as "", even when `summary_short` has a value |
| Newsletter.KnownWeeks | app/newsletter_generator.py:27-28 | dropping the empty weeks keeps how often each non-empty week occurs |
| Newsletter.HeadlineWeekAsWritten | app/newsletter_generator.py:27-30 | the headline is the most frequent week, the least of those tied, when some week is non-empty, empty weeks included in the count; otherwise "Week of " and today's date |
| Newsletter.HeadlineCanBeBlank | app/newsletter_generator.py:27-28 | weeks ["", "", "Week of 2024-01-01"] give an empty headline |
| Newsletter.HeadlineWeek | app/newsletter_generator.py:27-30 | the evidently intended headline: the most frequent non-empty week, the least of those tied, when there is one; otherwise "Week of " and today's date |
| Newsletter.HeadlinesAgreeWithoutBlanks | app/newsletter_generator.py:27-28 | when no row's week is blank, the headline as written is the intended one |
| Newsletter.InsertByTime | app/newsletter_generator.py:33-34 | inserting into a sorted list keeps it sorted and adds exactly that paper |
| Newsletter.ByTime | app/newsletter_generator.py:33-34 | the papers are rearranged, none lost or added, newest timestamp first and unparsable timestamps last |
| Newsletter.UnparsedLast | app/newsletter_generator.py:33-34 | in the sorted list a paper whose timestamp does not parse never precedes one whose timestamp does |
| Newsletter.BlocksLayout | app/newsletter_generator.py:42-49 | the body holds four lines per paper, and block k belongs to paper k |
| Newsletter.BuildHtml | app/newsletter_generator.py:37-49 | the HTML lines are the heading, the generation time and the rule, followed by each paper's four lines |
| Newsletter.Fresh | app/newsletter_generator.py:92-109 | below the limit the cursor moves to the top of a new page, and otherwise it stays put |
| Newsletter.DrawPieces | app/newsletter_generator.py:105-111 | the loop draws the summary pieces as the layout function prescribes and ends where it ends |
| Newsletter.DrawPaper | app/newsletter_generator.py:91-112 | one paper's lines and end position are as the layout function prescribes |
| Newsletter.DrawPapers | app/newsletter_generator.py:91-112 | a `NaN` title fails the text layout; otherwise every paper is drawn after the header |
| Newsletter.Layout | app/newsletter_generator.py:76-114 | the text layout is the two header lines followed by every paper, or fails on a `NaN` title |
| Newsletter.TextPagesChained | app/newsletter_generator.py:79-112 | each line sits below the previous one on the same page or at the top of a later page, starting on the first page |
| Newsletter.TextPagesInMargins | app/newsletter_generator.py:81-111 | no line is above the top margin, and with pages at least 158 points high no paper line falls below the bottom margin |
| Newsletter.MarginBoundTight | app/newsletter_generator.py:92-103 | on a 157-point page the first paper's authors line falls to 71, below the margin |
| Newsletter.TextsAppend | app/newsletter_generator.py:91-112 | the texts of two runs of lines are the texts of each in turn |
| Newsletter.PapersTexts | app/newsletter_generator.py:91-112 | the papers' lines hold each paper's title, authors line and summary pieces, in paper order |
| Newsletter.TextPagesTexts | app/newsletter_generator.py:84-112 | the texts printed are the heading, the generation time and then each paper's texts, whatever the page height |
| Newsletter.PiecesOfSummary | app/newsletter_generator.py:105-106 | the pieces of 110 characters give back exactly the summary's first 4000 characters |
| Newsletter.Weeks | app/newsletter_generator.py:24-28 | the week column of the prepared papers, one per paper |
| Newsletter.Publish | app/newsletter_generator.py:26-114 | under the headline the code computes, the HTML document when the renderer works; otherwise the text layout of the sorted papers, or a failure on a `NaN` title |
| Newsletter.Generate | app/newsletter_generator.py:16-119 | preparation failures are raised; otherwise the sorted papers under the headline the code computes are rendered as HTML, or laid out as text pages when the renderer fails |

## Left out

- The network is not modelled: the arXiv feed, the Groq service and the
  GitHub workflow dispatch. Feed entries and service replies are
  parameters. The dispatch button, the PDF download button and
  `subprocess` are left out.
- The thread pool is not modelled as real concurrency. A batch is
  modelled as its results written in some order; the order is arbitrary
  and proved not to matter. `time.sleep(20)` and the printed progress
  messages are left out.
- CSV reading and writing is not modelled. A saved checkpoint is a
  snapshot in a log, and a file that exists is a `Frame`. Column types
  are not modelled: every cell is text or `NaN`, so numeric columns and
  the `""`-to-`NaN` conversion when reading back a CSV are not captured.
- The clock is a parameter holding the ISO text and the civil date it
  stands for. Time zones and `astimezone()` are not modelled.
- Timestamp parsing is not modelled:
  - `pd.to_datetime` of a week label's input is a parsed `Option<Date>`;
  - in the newsletter, a parser from text to an optional instant is a
    parameter;
  - column-wide format inference is not captured, because each cell is
    parsed on its own.
- The search box (`str.contains(..., case=False)`) is left out, because
  it needs Unicode case folding.
- `human_ts` and the table view's column renaming are left out. They only
  format what is shown.
- Streamlit is not modelled: widgets, caching, `experimental_rerun` and
  the messages it shows. A button press is a call of the matching method.
- `load_raw` and the 50-row sample are not modelled beyond the bound on
  the raw row index.
- PDF rendering is not modelled. The HTML renderer is a `rendererWorks`
  parameter, and the rendered output is the HTML text. In the text
  fallback, fonts, the x coordinate and the canvas calls are not
  modelled; the model keeps pages, heights and texts. A failing fallback
  renderer is not modelled.
- A feed entry always has a title, an abstract, a link and a date. The
  `AttributeError` that an entry missing one of them raises in
  `fetch_papers` is not modelled.
- Newsletter.ByTime: does not fix the order among papers with equal
  timestamps. pandas' default sort is not stable, so only "sorted
  newest first, unparsable last, and a rearrangement" is stated.
- Dashboard.LoadProcessed: requires that the stripped column names be
  distinct. A table whose names collide after stripping has duplicate
  columns in pandas, which the frame model cannot express.
- Newsletter.TextPagesInMargins: the lower bound is proved for pages at
  least 158 points high. Letter pages are 792 points high, and
  Newsletter.MarginBoundTight shows that 157 points is not enough.
- In these places the model follows the code, not what its names and
  comments suggest:
  - `summarize_all` reads the fetched table `data/raw/papers.csv`, not the
    checkpoint it writes, so progress is not resumed from an earlier run;
  - `summarize_all` never sets `summary_updated` or `week_of_update`;
  - the newsletter's headline is the mode of all weeks, blank ones
    included (see Findings);
  - the dashboard's caption fails when `NaN`s and timestamps are both
    selected (see Findings);
  - the newsletter's fallback headline names today's date, not that week's
    Monday.

## Findings

| source | as written | input that shows it | evidently intended | confidence | as-written member | corrected member |
|---|---|---|---|---|---|---|
| app/newsletter_generator.py:27-28 | once some week is non-empty, the headline is the mode of every week, the blank ones included, so it can be "" | weeks `["", "", "Week of 2024-01-01"]` give the headline "" | the most frequent non-empty week | not executed | Newsletter.HeadlineWeekAsWritten, Newsletter.HeadlineCanBeBlank | Newsletter.HeadlineWeek, Newsletter.HeadlinesAgreeWithoutBlanks |
| app/generate_dashboard.py:169-170 | on a column of texts, pandas' `max` replaces each selected `NaN` by negative infinity and compares it with the selected texts, which raises | `summary_updated` cells `[NaN, "2025-03-12T10:00:00+00:00"]`, as after one regenerated row | the latest timestamp, the `NaN`s skipped | not executed | Dashboard.LatestOf, Dashboard.MixedCaptionFails | Dashboard.LatestSkippingNaN, Dashboard.CaptionsAgree |
