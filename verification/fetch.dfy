/** The fetch stage (`app/fetch_arxiv.py`): one record per feed entry of each
    arXiv category, the records of all categories one after another, and the
    table built from them with the known columns first.

    The feed itself is an input (a sequence of entries per category), and so
    is the clock: each call of `fetch_papers` reads the time once, as an ISO
    text together with the civil date that `pd.to_datetime` reads from it. */
module Fetch {
  import opened Wrappers
  import opened Seqs
  import opened Text
  import opened Calendar
  import opened Table

  const Categories: seq<string> := ["cs.LG", "cs.CV", "cs.AI", "cs.CL", "stat.ML"]
  const TotalPapers := 100
  const PapersPerCategory := TotalPapers / |Categories|

  /** The quota splits the total evenly: 20 papers from each of the five
      categories. */
  lemma QuotaSplitsTotal()
    ensures |Categories| == 5 && PapersPerCategory == 20
    ensures PapersPerCategory * |Categories| == TotalPapers
  {
  }

  /** One feed entry as the feed parser hands it over; `authors` is `None`
      when the entry has no `authors` attribute. */
  datatype FeedEntry = FeedEntry(title: string, summary: string, link: string, published: string,
                                 authors: Option<seq<string>>)

  /** One record, with the fields `fetch_papers` fills in. */
  datatype Paper = Paper(category: string, title: string, summary: string, link: string,
                         published: string, authors: string, fetchedAt: string, fetchedWeek: string)

  /** `s.strip().replace("\n", " ")`. */
  function Normalise(s: string): (r: string)
    ensures '\n' !in r
    ensures r == [] <==> IsBlank(s)
  {
    ReplaceNewlines(Strip(s))
  }

  /** A normalised text is stripped and free of line breaks, so normalising it
      again changes nothing. */
  lemma NormaliseIdempotent(s: string)
    ensures Strip(Normalise(s)) == Normalise(s)
    ensures Normalise(Normalise(s)) == Normalise(s)
  {
    var t, r := Strip(s), Normalise(s);
    if r != [] {
      ReplaceNewlinesAt(t, 0);
      ReplaceNewlinesAt(t, |t| - 1);
      StripUnchanged(r);
    }
    ReplaceNewlinesNone(r);
  }

  /** `", ".join(a.name for a in entry.authors)`, or `""` without authors. */
  function AuthorsLine(authors: Option<seq<string>>): (r: string)
    ensures authors.Some? && |authors.value| == 1 ==> r == authors.value[0]
  {
    match authors
    case None => ""
    case Some(names) => Join(names, ", ")
  }

  /** The authors field is empty exactly when the entry has no authors, an
      empty list of them, or a single author with an empty name. */
  lemma AuthorsLineEmpty(authors: Option<seq<string>>)
    ensures AuthorsLine(authors) == "" <==> authors == None || authors == Some([]) || authors == Some([""])
  {
    if authors.Some? {
      JoinEmpty(authors.value, ", ");
    }
  }

  /** The record `fetch_papers` appends for one entry. */
  function BuildRecord(category: string, fetchedAt: string, fetchedWeek: string, e: FeedEntry): Paper {
    Paper(category, Normalise(e.title), Normalise(e.summary), e.link, e.published,
          AuthorsLine(e.authors), fetchedAt, fetchedWeek)
  }

  /** Title and abstract are stripped single-line texts, empty only when the
      feed's text is blank; the authors field is empty only without authors;
      link and date are copied; the fetch fields are shared. */
  lemma RecordFields(category: string, fetchedAt: string, fetchedWeek: string, e: FeedEntry)
    ensures var p := BuildRecord(category, fetchedAt, fetchedWeek, e);
      && '\n' !in p.title && Strip(p.title) == p.title && (p.title == "" <==> IsBlank(e.title))
      && '\n' !in p.summary && Strip(p.summary) == p.summary && (p.summary == "" <==> IsBlank(e.summary))
      && (p.authors == "" <==> e.authors == None || e.authors == Some([]) || e.authors == Some([""]))
      && p.link == e.link && p.published == e.published
      && p.category == category && p.fetchedAt == fetchedAt && p.fetchedWeek == fetchedWeek
  {
    NormaliseIdempotent(e.title);
    NormaliseIdempotent(e.summary);
    AuthorsLineEmpty(e.authors);
  }

  /** The records built from `entries`, one per entry in feed order. */
  function Records(category: string, fetchedAt: string, fetchedWeek: string, entries: seq<FeedEntry>): (ps: seq<Paper>)
    ensures |ps| == |entries|
    decreases |entries|
  {
    if entries == [] then []
    else
      var n := |entries| - 1;
      Records(category, fetchedAt, fetchedWeek, entries[..n]) + [BuildRecord(category, fetchedAt, fetchedWeek, entries[n])]
  }

  /** Record `k` is built from entry `k`. */
  lemma {:induction false} RecordsAt(category: string, fetchedAt: string, fetchedWeek: string, entries: seq<FeedEntry>, k: nat)
    requires k < |entries|
    ensures Records(category, fetchedAt, fetchedWeek, entries)[k] == BuildRecord(category, fetchedAt, fetchedWeek, entries[k])
    decreases |entries|
  {
    var n := |entries| - 1;
    if k < n {
      RecordsAt(category, fetchedAt, fetchedWeek, entries[..n], k);
    }
  }

  /** `fetch_papers(category)` on the entries the feed returned: the time is
      read and turned into a week label once, before the loop, so every record
      shares category, `fetched_at` and `fetched_week`. */
  method FetchPapers(category: string, clock: Clock, entries: seq<FeedEntry>) returns (papers: seq<Paper>)
    requires ClockValid(clock)
    ensures papers == Records(category, clock.iso, WeekOfIso(clock.date), entries)
  {
    papers := [];
    var fetchedWeek := WeekOfIso(clock.date);
    for k := 0 to |entries|
      invariant papers == Records(category, clock.iso, fetchedWeek, entries[..k])
    {
      assert entries[..k + 1][..k] == entries[..k];
      papers := papers + [BuildRecord(category, clock.iso, fetchedWeek, entries[k])];
    }
    assert entries[..|entries|] == entries;
  }

  predicate Matching(categories: seq<string>, clocks: seq<Clock>, feeds: seq<seq<FeedEntry>>) {
    |clocks| == |categories| == |feeds| && forall k :: 0 <= k < |clocks| ==> ClockValid(clocks[k])
  }

  /** The records of one category as `fetch_papers` returns them. */
  function CategoryPapers(category: string, clock: Clock, entries: seq<FeedEntry>): (ps: seq<Paper>)
    requires ClockValid(clock)
    ensures |ps| == |entries|
  {
    Records(category, clock.iso, WeekOfIso(clock.date), entries)
  }

  /** The records of each category, in category order. */
  function CategoryParts(categories: seq<string>, clocks: seq<Clock>, feeds: seq<seq<FeedEntry>>): (parts: seq<seq<Paper>>)
    requires Matching(categories, clocks, feeds)
    ensures |parts| == |categories|
    ensures forall k :: 0 <= k < |categories| ==> parts[k] == CategoryPapers(categories[k], clocks[k], feeds[k])
  {
    seq(|categories|, k requires 0 <= k < |categories| => CategoryPapers(categories[k], clocks[k], feeds[k]))
  }

  /** The records of all categories, category after category. */
  function AllPapers(categories: seq<string>, clocks: seq<Clock>, feeds: seq<seq<FeedEntry>>): seq<Paper>
    requires Matching(categories, clocks, feeds)
  {
    Flatten(CategoryParts(categories, clocks, feeds))
  }

  /** Record `j` of category `k` follows the records of the categories
      before it: the categories' records follow one another in category
      order. */
  lemma AllPapersAt(categories: seq<string>, clocks: seq<Clock>, feeds: seq<seq<FeedEntry>>, k: nat, j: nat)
    requires Matching(categories, clocks, feeds)
    requires k < |categories| && j < |feeds[k]|
    ensures Matching(categories[..k], clocks[..k], feeds[..k])
    ensures |AllPapers(categories[..k], clocks[..k], feeds[..k])| + j < |AllPapers(categories, clocks, feeds)|
    ensures AllPapers(categories, clocks, feeds)[|AllPapers(categories[..k], clocks[..k], feeds[..k])| + j]
         == CategoryPapers(categories[k], clocks[k], feeds[k])[j]
  {
    var parts := CategoryParts(categories, clocks, feeds);
    assert CategoryParts(categories[..k], clocks[..k], feeds[..k]) == parts[..k];
    FlattenAt(parts, k, j);
  }

  /** The loop of `fetch_all_categories`: the records of each category in
      turn. */
  method CollectPapers(categories: seq<string>, clocks: seq<Clock>, feeds: seq<seq<FeedEntry>>) returns (all: seq<Paper>)
    requires Matching(categories, clocks, feeds)
    ensures all == AllPapers(categories, clocks, feeds)
  {
    ghost var parts := CategoryParts(categories, clocks, feeds);
    all := [];
    for k := 0 to |categories|
      invariant all == Flatten(parts[..k])
    {
      var papers := FetchPapers(categories[k], clocks[k], feeds[k]);
      TakeSnoc(parts, k);
      FlattenSnoc(parts[..k], papers);
      all := all + papers;
    }
    assert parts[..|categories|] == parts;
  }

  /** `fetch_all_categories`: the records of every category, then the table
      built from them with its columns put in the saved order. */
  method FetchAllCategories(categories: seq<string>, clocks: seq<Clock>, feeds: seq<seq<FeedEntry>>) returns (df: Frame)
    requires Matching(categories, clocks, feeds)
    ensures df == PapersFrame(AllPapers(categories, clocks, feeds))
  {
    var all := CollectPapers(categories, clocks, feeds);
    var raw := RecordsFrame(all);
    df := Reindex(raw, OrderColumns(raw.columns));
    RecordsFrameOrdered(all);
  }

  /** With the default arguments, `fetch_all_categories()` asks each of the
      five categories for its share of the total; a feed returns at most the
      number of entries asked for, so the table never holds more than 100
      papers. */
  method FetchWithQuota(clocks: seq<Clock>, feeds: seq<seq<FeedEntry>>) returns (df: Frame)
    requires Matching(Categories, clocks, feeds)
    requires forall k :: 0 <= k < |feeds| ==> |feeds[k]| <= PapersPerCategory
    ensures df == PapersFrame(AllPapers(Categories, clocks, feeds))
    ensures |df.rows| <= TotalPapers
  {
    df := FetchAllCategories(Categories, clocks, feeds);
    FetchedWithinTotal(clocks, feeds);
  }

  /** Five categories of at most 20 records each make at most 100 records. */
  lemma FetchedWithinTotal(clocks: seq<Clock>, feeds: seq<seq<FeedEntry>>)
    requires Matching(Categories, clocks, feeds)
    requires forall k :: 0 <= k < |feeds| ==> |feeds[k]| <= PapersPerCategory
    ensures |AllPapers(Categories, clocks, feeds)| <= TotalPapers
  {
    QuotaSplitsTotal();
    FlattenBound(CategoryParts(Categories, clocks, feeds), PapersPerCategory);
  }

  // ---------------------------------------------------------------------------
  // The table

  /** The keys of a record, in the order the dictionary is written. */
  const RecordKeys: seq<string> := ["category", "title", "summary", "link", "published", "authors", "fetched_at", "fetched_week"]

  /** The column order the table is saved in. */
  const Canonical: seq<string> := ["category", "title", "authors", "link", "published", "summary", "fetched_at", "fetched_week"]

  lemma CanonicalDistinct()
    ensures Distinct(Canonical)
  {
  }

  lemma RecordKeysDistinct()
    ensures Distinct(RecordKeys)
  {
  }

  /** The field of a record under a column name. */
  function Field(p: Paper, name: string): string {
    if name == "category" then p.category
    else if name == "title" then p.title
    else if name == "summary" then p.summary
    else if name == "link" then p.link
    else if name == "published" then p.published
    else if name == "authors" then p.authors
    else if name == "fetched_at" then p.fetchedAt
    else if name == "fetched_week" then p.fetchedWeek
    else ""
  }

  /** The records as rows, one cell per name of `names`, each cell the
      record's field of that name. */
  function FieldsFrame(ps: seq<Paper>, names: seq<string>): (f: Frame)
    requires Distinct(names)
    ensures f.Valid() && f.columns == names && |f.rows| == |ps|
    ensures forall i, c :: 0 <= i < |ps| && c in names ==> At(f, i, c) == Some(Field(ps[i], c))
  {
    var f := Frame(names, seq(|ps|, i requires 0 <= i < |ps| => seq(|names|, k requires 0 <= k < |names| => Some(Field(ps[i], names[k])))));
    forall i, c | 0 <= i < |ps| && c in names ensures At(f, i, c) == Some(Field(ps[i], c)) {
      var k :| 0 <= k < |names| && names[k] == c;
      IndexOfUnique(names, c, k);
    }
    f
  }

  /** `pd.DataFrame(records)`: the keys become the columns, in the order the
      record writes them; no records give a table with neither rows nor
      columns. */
  function RecordsFrame(ps: seq<Paper>): (f: Frame)
    ensures f.Valid() && |f.rows| == |ps|
    ensures f.columns == if ps == [] then [] else RecordKeys
    ensures forall i, c :: 0 <= i < |ps| && c in f.columns ==> At(f, i, c) == Some(Field(ps[i], c))
  {
    if ps == [] then Frame([], [])
    else
      RecordKeysDistinct();
      FieldsFrame(ps, RecordKeys)
  }

  /** The saved table: the records under the canonical columns, or the empty
      table when there is no record. */
  function PapersFrame(ps: seq<Paper>): (f: Frame)
    ensures f.Valid() && |f.rows| == |ps|
    ensures f.columns == if ps == [] then [] else Canonical
    ensures forall i, c :: 0 <= i < |ps| && c in f.columns ==> At(f, i, c) == Some(Field(ps[i], c))
  {
    if ps == [] then Frame([], [])
    else
      CanonicalDistinct();
      FieldsFrame(ps, Canonical)
  }

  /** The names of `order` that are among `cols`, in the order of `order`,
      then the other names of `cols` in their own order. */
  function OrderBy(order: seq<string>, cols: seq<string>): (r: seq<string>)
    requires Distinct(order) && Distinct(cols)
    ensures Distinct(r)
  {
    var known, extra := Filter(order, c => c in cols), Filter(cols, c => c !in order);
    FilterDistinct(order, c => c in cols);
    FilterDistinct(cols, c => c !in order);
    DistinctAppend(known, extra);
    known + extra
  }

  /** The new order is a permutation of the columns. */
  lemma OrderByPermutation(order: seq<string>, cols: seq<string>)
    requires Distinct(order) && Distinct(cols)
    ensures multiset(OrderBy(order, cols)) == multiset(cols)
  {
    DistinctSameElems(OrderBy(order, cols), cols);
  }

  /** Taken alone, the names of `order` keep the order of `order` and the
      other names keep their order among the columns. */
  lemma OrderByKeepsOrders(order: seq<string>, cols: seq<string>)
    requires Distinct(order) && Distinct(cols)
    ensures Filter(OrderBy(order, cols), c => c in order) == Filter(order, c => c in cols)
    ensures Filter(OrderBy(order, cols), c => c !in order) == Filter(cols, c => c !in order)
  {
    OrderByKeepsKnown(order, cols);
    OrderByKeepsExtra(order, cols);
  }

  lemma OrderByKeepsKnown(order: seq<string>, cols: seq<string>)
    requires Distinct(order) && Distinct(cols)
    ensures Filter(OrderBy(order, cols), c => c in order) == Filter(order, c => c in cols)
  {
    var known, extra := Filter(order, c => c in cols), Filter(cols, c => c !in order);
    assert OrderBy(order, cols) == known + extra;
    FilterAppend(known, extra, c => c in order);
    FilterAll(known, c => c in order);
    FilterNone(extra, c => c in order);
  }

  lemma OrderByKeepsExtra(order: seq<string>, cols: seq<string>)
    requires Distinct(order) && Distinct(cols)
    ensures Filter(OrderBy(order, cols), c => c !in order) == Filter(cols, c => c !in order)
  {
    var known, extra := Filter(order, c => c in cols), Filter(cols, c => c !in order);
    assert OrderBy(order, cols) == known + extra;
    FilterAppend(known, extra, c => c !in order);
    FilterNone(known, c => c !in order);
    FilterAll(extra, c => c !in order);
  }

  /** No name of `order` comes after a name outside it. */
  lemma OrderByKnownFirst(order: seq<string>, cols: seq<string>)
    requires Distinct(order) && Distinct(cols)
    ensures forall i, j :: 0 <= i < j < |OrderBy(order, cols)| && OrderBy(order, cols)[j] in order ==> OrderBy(order, cols)[i] in order
  {
    var r := OrderBy(order, cols);
    var known, extra := Filter(order, c => c in cols), Filter(cols, c => c !in order);
    assert r == known + extra;
    assert forall j :: |known| <= j < |r| ==> r[j] == extra[j - |known|] && r[j] !in order;
    forall i, j | 0 <= i < j < |r| && r[j] in order ensures r[i] in order {
      assert r[i] == known[i] && r[i] in known;
    }
  }

  /** When the columns are exactly the names of `order`, the new order is
      `order` itself. */
  lemma OrderBySameNames(order: seq<string>, cols: seq<string>)
    requires Distinct(order) && Distinct(cols)
    requires forall c :: c in order <==> c in cols
    ensures OrderBy(order, cols) == order
  {
    FilterAll(order, c => c in cols);
    FilterNone(cols, c => c !in order);
  }

  /** No columns stay no columns. */
  lemma OrderByNone(order: seq<string>)
    requires Distinct(order)
    ensures OrderBy(order, []) == []
  {
    FilterNone(order, c => c in []);
  }

  /** The column order `fetch_all_categories` saves with. */
  function OrderColumns(cols: seq<string>): (r: seq<string>)
    requires Distinct(cols)
    ensures Distinct(r)
  {
    CanonicalDistinct();
    OrderBy(Canonical, cols)
  }

  /** Records come out of `pd.DataFrame` already holding every canonical
      column, so reordering gives exactly the canonical order. */
  lemma OrderRecordKeys()
    ensures Distinct(RecordKeys) && OrderColumns(RecordKeys) == Canonical
  {
    RecordKeysDistinct();
    CanonicalDistinct();
    SameNames();
    OrderBySameNames(Canonical, RecordKeys);
  }

  lemma SameNames()
    ensures forall c :: c in Canonical <==> c in RecordKeys
  {
  }

  /** Reordering a table whose columns are a rearrangement of `order`
      gives the table built under `order` directly. */
  lemma ReorderFields(ps: seq<Paper>, keys: seq<string>, order: seq<string>)
    requires Distinct(keys) && Distinct(order)
    requires forall c :: c in order <==> c in keys
    ensures Reindex(FieldsFrame(ps, keys), OrderBy(order, keys)) == FieldsFrame(ps, order)
  {
    OrderBySameNames(order, keys);
    FrameEquality(Reindex(FieldsFrame(ps, keys), order), FieldsFrame(ps, order));
  }

  /** With records, the keys are reordered into the canonical order. */
  lemma SomeRecordsOrdered(ps: seq<Paper>)
    requires ps != []
    ensures Distinct(RecordKeys)
    ensures Reindex(RecordsFrame(ps), OrderColumns(RecordKeys)) == PapersFrame(ps)
  {
    CanonicalDistinct();
    RecordKeysDistinct();
    SameNames();
    ReorderFields(ps, RecordKeys, Canonical);
  }

  /** Reordering a table with neither rows nor columns changes nothing. */
  lemma ReorderEmpty(order: seq<string>)
    requires Distinct(order)
    ensures Reindex(Frame([], []), OrderBy(order, [])) == Frame([], [])
  {
    OrderByNone(order);
    FrameEquality(Reindex(Frame([], []), []), Frame([], []));
  }

  /** Without records, the table stays without columns. */
  lemma NoRecordsOrdered()
    ensures Reindex(RecordsFrame([]), OrderColumns([])) == PapersFrame([])
  {
    CanonicalDistinct();
    ReorderEmpty(Canonical);
  }

  /** Reordering the columns of the records' table gives the saved table. */
  lemma RecordsFrameOrdered(ps: seq<Paper>)
    ensures Distinct(RecordsFrame(ps).columns)
    ensures Reindex(RecordsFrame(ps), OrderColumns(RecordsFrame(ps).columns)) == PapersFrame(ps)
  {
    if ps == [] {
      NoRecordsOrdered();
    } else {
      SomeRecordsOrdered(ps);
    }
  }
}
