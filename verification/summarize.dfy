/** The incremental batch summariser (`app/summarize_papers.py`): it keeps the
    first `limit` fetched papers, finds the rows whose `summary_short` is still
    missing, asks the language-model service for those rows batch by batch,
    writes each answer back into its own row, and saves the whole table after
    every batch.

    The service is a function from the request text to a reply. The thread
    pool of a batch is an arbitrary order in which the batch's answers are
    written back. A saved checkpoint is a snapshot appended to a log. */
module Summarize {
  import opened Wrappers
  import opened Seqs
  import opened Text
  import opened Table

  const NoAbstract := "No abstract available to summarize."
  const GenerationFailed := "Error generating summary."

  const SummaryShort := "summary_short"
  const TitleColumn := "title"
  /** The fetch stage stores each paper's abstract in the column `summary`. */
  const AbstractColumn := "summary"

  /** The service's reply to one request: the message text, or any failure
      (transport error, service error, or a reply without text). */
  datatype Reply = Answer(content: string) | Failed

  /** The service as seen by one run: its reply to the request made for row
      `i` of the working table. Each row is asked once per run, and the model
      samples its answer (temperature 0.4), so two rows sending the same
      request may get different replies. */
  type Client = (nat, string) -> Reply

  /** The request sent for one paper. */
  function Prompt(title: string, abstractText: string): string {
    "Summarize this research paper for a general audience:\n\nTitle: " + title
    + "\n\nAbstract: " + abstractText + "\n\nSummary:"
  }

  /** `summarize_paper` for row `row`: a blank abstract gets the no-abstract
      text without a request; otherwise the stripped reply, or the failure
      text when the request fails. */
  function SummarizePaper(client: Client, row: nat, title: string, abstractText: string): (r: string)
    ensures IsBlank(abstractText) ==> r == NoAbstract
    ensures !IsBlank(abstractText) && client(row, Prompt(title, abstractText)).Failed? ==> r == GenerationFailed
    ensures !IsBlank(abstractText) && client(row, Prompt(title, abstractText)).Answer? ==>
      r == Strip(client(row, Prompt(title, abstractText)).content)
  {
    if IsBlank(abstractText) then NoAbstract
    else match client(row, Prompt(title, abstractText))
      case Answer(text) => Strip(text)
      case Failed => GenerationFailed
  }

  /** A blank abstract never reaches the service: any two clients give the
      same result. */
  lemma BlankAbstractSkipsClient(c1: Client, c2: Client, row: nat, title: string, abstractText: string)
    requires IsBlank(abstractText)
    ensures SummarizePaper(c1, row, title, abstractText) == SummarizePaper(c2, row, title, abstractText) == NoAbstract
  {
  }

  /** The result depends on the service only through its reply to this
      paper's request. */
  lemma SummarizePaperUsesOneReply(c1: Client, c2: Client, row: nat, title: string, abstractText: string)
    requires c1(row, Prompt(title, abstractText)) == c2(row, Prompt(title, abstractText))
    ensures SummarizePaper(c1, row, title, abstractText) == SummarizePaper(c2, row, title, abstractText)
  {
  }

  /** Every result is a stripped string: the answer is stripped and the two
      fixed texts have no surrounding whitespace. */
  lemma SummarizePaperStripped(client: Client, row: nat, title: string, abstractText: string)
    ensures Strip(SummarizePaper(client, row, title, abstractText)) == SummarizePaper(client, row, title, abstractText)
  {
    if !IsBlank(abstractText) {
      match client(row, Prompt(title, abstractText))
      case Answer(text) => StripIdempotent(text);
      case Failed => StripUnchanged(GenerationFailed);
    } else {
      StripUnchanged(NoAbstract);
    }
  }

  // ---------------------------------------------------------------------------
  // The working table

  /** A `summary_short` cell that still needs a summary: missing or `""`. */
  predicate IsPendingCell(c: Cell) {
    c == None || c == Some("")
  }

  /** `pd.read_csv(...).head(limit)`, with `summary_short` added as `""` when
      the file has no such column. */
  function Prepare(raw: Frame, limit: int): (work: Frame)
    requires raw.Valid()
    ensures work.Valid() && SummaryShort in work.columns
  {
    var df := Head(raw, limit);
    if SummaryShort in df.columns then df else Assign(df, SummaryShort, Repeat(Some(""), |df.rows|))
  }

  /** The working table keeps the first `limit` rows of the fetched table
      (all rows but the last `-limit` for a negative `limit`) in their order,
      keeps every column and cell of those rows, and gains `summary_short`,
      all `""`, only when it was absent. */
  lemma PrepareKeepsRows(raw: Frame, limit: int)
    requires raw.Valid()
    ensures var work := Prepare(raw, limit);
      && work.columns == (if SummaryShort in raw.columns then raw.columns else raw.columns + [SummaryShort])
      && |work.rows| == (if limit >= 0 then Min(limit, |raw.rows|) else if |raw.rows| + limit >= 0 then |raw.rows| + limit else 0)
      && (forall i, c :: 0 <= i < |work.rows| && c in raw.columns ==> At(work, i, c) == At(raw, i, c))
      && (SummaryShort !in raw.columns ==> forall i :: 0 <= i < |work.rows| ==> At(work, i, SummaryShort) == Some(""))
  {
    var df := Head(raw, limit);
    forall i, c | 0 <= i < |df.rows| && c in raw.columns ensures At(df, i, c) == At(raw, i, c) {
      assert df.rows[i] == raw.rows[i];
    }
  }

  /** The positions of the rows still to summarise, in table order. */
  function Pending(work: Frame): (p: seq<nat>)
    requires work.Valid() && SummaryShort in work.columns
    ensures forall i: nat :: i in p <==> i < |work.rows| && IsPendingCell(At(work, i, SummaryShort))
    ensures forall j, k :: 0 <= j < k < |p| ==> p[j] < p[k]
  {
    IndicesWhere(Cells(work, SummaryShort), IsPendingCell)
  }

  /** When the column was absent every kept row is pending, in order. */
  lemma AllPendingWhenColumnAdded(raw: Frame, limit: int)
    requires raw.Valid() && SummaryShort !in raw.columns
    ensures var work := Prepare(raw, limit); Pending(work) == seq(|work.rows|, i => i)
  {
    var work := Prepare(raw, limit);
    PrepareKeepsRows(raw, limit);
    IndicesWhereAll(Cells(work, SummaryShort), IsPendingCell);
  }

  /** All columns the worker and the write-back use are present. */
  predicate Ready(work: Frame) {
    work.Valid() && SummaryShort in work.columns && TitleColumn in work.columns && AbstractColumn in work.columns
  }

  /** What ends up in row `i`'s `summary_short`: the worker's result, or the
      failure text when the worker raised. A missing abstract makes `.strip()`
      raise inside the worker, so it gets the failure text and not the
      no-abstract text. A missing title is sent as "nan". */
  function WorkerResult(work: Frame, client: Client, i: nat): string
    requires Ready(work) && i < |work.rows|
  {
    match At(work, i, AbstractColumn)
    case None => GenerationFailed
    case Some(abstractText) => SummarizePaper(client, i, CellText(At(work, i, TitleColumn)), abstractText)
  }

  lemma MissingAbstractFails(work: Frame, client: Client, i: nat)
    requires Ready(work) && i < |work.rows| && At(work, i, AbstractColumn) == None
    ensures WorkerResult(work, client, i) == GenerationFailed != NoAbstract
  {
  }

  /** The table once the rows in `done` hold their results. */
  function Written(work: Frame, client: Client, done: set<nat>): (r: Frame)
    requires Ready(work)
    ensures Ready(r) && r.columns == work.columns && |r.rows| == |work.rows|
    ensures forall i :: 0 <= i < |work.rows| ==>
      At(r, i, SummaryShort) == if i in done then Some(WorkerResult(work, client, i)) else At(work, i, SummaryShort)
    ensures forall i, c :: 0 <= i < |work.rows| && c in work.columns && c != SummaryShort ==> At(r, i, c) == At(work, i, c)
  {
    Assign(work, SummaryShort, seq(|work.rows|, i requires 0 <= i < |work.rows| =>
      if i in done then Some(WorkerResult(work, client, i)) else At(work, i, SummaryShort)))
  }

  /** Nothing written yet is the working table itself. */
  lemma WrittenNone(work: Frame, client: Client)
    requires Ready(work)
    ensures Written(work, client, {}) == work
  {
    FrameEquality(Written(work, client, {}), work);
  }

  /** Writing one more row's result. */
  lemma WrittenStep(work: Frame, client: Client, done: set<nat>, i: nat)
    requires Ready(work) && i < |work.rows|
    ensures SetCell(Written(work, client, done), i, SummaryShort, Some(WorkerResult(work, client, i)))
         == Written(work, client, done + {i})
  {
    FrameEquality(SetCell(Written(work, client, done), i, SummaryShort, Some(WorkerResult(work, client, i))),
                  Written(work, client, done + {i}));
  }

  /** Writing results back one at a time in the order given. */
  function WriteInOrder(work: Frame, client: Client, order: seq<nat>): (r: Frame)
    requires Ready(work)
    requires forall k :: 0 <= k < |order| ==> order[k] < |work.rows|
    ensures Ready(r) && r.columns == work.columns && |r.rows| == |work.rows|
    decreases |order|
  {
    if order == [] then work
    else
      var n := |order| - 1;
      var before := WriteInOrder(work, client, order[..n]);
      SetCell(before, order[n], SummaryShort, Some(WorkerResult(work, client, order[n])))
  }

  /** Whatever order the results come back in, the table ends up the same:
      the one with exactly those rows written. */
  lemma {:induction false} WriteInOrderIsWritten(work: Frame, client: Client, order: seq<nat>)
    requires Ready(work)
    requires forall k :: 0 <= k < |order| ==> order[k] < |work.rows|
    ensures WriteInOrder(work, client, order) == Written(work, client, Elems(order))
    decreases |order|
  {
    if order == [] {
      WrittenNone(work, client);
    } else {
      var n := |order| - 1;
      var prefix, x := order[..n], order[n];
      var before := WriteInOrder(work, client, prefix);
      assert WriteInOrder(work, client, order) == SetCell(before, x, SummaryShort, Some(WorkerResult(work, client, x)));
      WriteInOrderIsWritten(work, client, prefix);
      WrittenStep(work, client, Elems(prefix), x);
      ElemsLast(order);
    }
  }

  /** Two completion orders of the same rows give the same table. */
  lemma CompletionOrderIrrelevant(work: Frame, client: Client, o1: seq<nat>, o2: seq<nat>)
    requires Ready(work)
    requires forall k :: 0 <= k < |o1| ==> o1[k] < |work.rows|
    requires forall k :: 0 <= k < |o2| ==> o2[k] < |work.rows|
    requires multiset(o1) == multiset(o2)
    ensures WriteInOrder(work, client, o1) == WriteInOrder(work, client, o2)
  {
    WriteInOrderIsWritten(work, client, o1);
    WriteInOrderIsWritten(work, client, o2);
    assert Elems(o1) == Elems(o2) by {
      forall x ensures x in Elems(o1) <==> x in Elems(o2) {
        assert x in o1 <==> x in multiset(o1);
        assert x in o2 <==> x in multiset(o2);
      }
    }
  }

  // ---------------------------------------------------------------------------
  // The run

  /** Why a run stops with an exception: no fetched table to read, `range`
      with step 0, a thread pool with no workers, or a row without the column
      a request needs. */
  datatype Fault = NoStore | ZeroBatchSize | NoWorkers | MissingColumn(name: string)

  /** The snapshot saved after each batch: the table with the rows of that
      batch and all earlier ones written. */
  function CheckpointLog(work: Frame, client: Client, batches: seq<seq<nat>>): (log: seq<Frame>)
    requires Ready(work)
    ensures |log| == |batches|
    decreases |batches|
  {
    if batches == [] then []
    else
      var n := |batches| - 1;
      CheckpointLog(work, client, batches[..n]) + [Written(work, client, Elems(Flatten(batches)))]
  }

  /** One more batch: its rows join the written ones and its snapshot joins
      the log. */
  lemma LogStep(work: Frame, client: Client, done: seq<seq<nat>>, batch: seq<nat>)
    requires Ready(work)
    ensures Elems(Flatten(done + [batch])) == Elems(Flatten(done)) + Elems(batch)
    ensures CheckpointLog(work, client, done + [batch])
         == CheckpointLog(work, client, done) + [Written(work, client, Elems(Flatten(done)) + Elems(batch))]
  {
    FlattenAppend(done, [batch]);
    assert Flatten([batch]) == batch + Flatten([batch][1..]);
    assert (done + [batch])[..|done|] == done;
  }

  /** Whether the run sends any request: a positive batch size and at least
      one pending row. */
  predicate SendsRequests(raw: Frame, batchSize: int, limit: int)
    requires raw.Valid()
  {
    batchSize > 0 && Pending(Prepare(raw, limit)) != []
  }

  /** What `summarize_all` returns or raises. */
  function Outcome(raw: Frame, client: Client, workers: int, batchSize: int, limit: int): Result<Frame, Fault>
    requires raw.Valid()
  {
    var work := Prepare(raw, limit);
    if batchSize == 0 then Err(ZeroBatchSize)
    else if !SendsRequests(raw, batchSize, limit) then Ok(work)
    else if workers <= 0 then Err(NoWorkers)
    else if TitleColumn !in work.columns then Err(MissingColumn(TitleColumn))
    else if AbstractColumn !in work.columns then Err(MissingColumn(AbstractColumn))
    else Ok(Written(work, client, Elems(Pending(work))))
  }

  /** The snapshots `summarize_all` saves, in order. */
  function Checkpoints(raw: Frame, client: Client, workers: int, batchSize: int, limit: int): seq<Frame>
    requires raw.Valid()
  {
    var work := Prepare(raw, limit);
    if SendsRequests(raw, batchSize, limit) && workers > 0 && Ready(work) then
      CheckpointLog(work, client, Chunks(Pending(work), batchSize))
    else []
  }

  /** Reads the fetched table: `pd.read_csv(...).head(limit)`, then either the
      rows whose `summary_short` is missing or `""`, or, when there is no such
      column, the column added as `""` and every row. */
  method LoadWork(raw: Frame, limit: int) returns (df: Frame, pendingRows: seq<nat>)
    requires raw.Valid()
    ensures df == Prepare(raw, limit) && pendingRows == Pending(df)
  {
    df := Head(raw, limit);
    if SummaryShort in df.columns {
      pendingRows := IndicesWhere(Cells(df, SummaryShort), IsPendingCell);
    } else {
      df := Assign(df, SummaryShort, Repeat(Some(""), |df.rows|));
      pendingRows := seq(|df.rows|, i => i);
      AllPendingWhenColumnAdded(raw, limit);
    }
  }

  /** One batch: a request per row of `batch`, then each result written into
      its own row in whatever order the requests complete. */
  method RunBatch(work: Frame, client: Client, df: Frame, ghost written: set<nat>, batch: seq<nat>)
    returns (next: Frame)
    requires Ready(work) && forall x :: x in batch ==> x < |work.rows|
    requires df == Written(work, client, written)
    ensures next == Written(work, client, written + Elems(batch))
  {
    var futures := map idx | idx in Elems(batch) :: WorkerResult(work, client, idx);
    var remaining := futures.Keys;
    next := df;
    while remaining != {}
      invariant remaining <= Elems(batch)
      invariant next == Written(work, client, written + (Elems(batch) - remaining))
      decreases |remaining|
    {
      var idx :| idx in remaining;
      ghost var before := written + (Elems(batch) - remaining);
      WrittenStep(work, client, before, idx);
      TakeOneMore(written, Elems(batch), remaining, idx);
      next := SetCell(next, idx, SummaryShort, Some(futures[idx]));
      remaining := remaining - {idx};
    }
    assert Elems(batch) - remaining == Elems(batch);
  }

  /** Taking `x` out of what remains adds it to what is done. */
  lemma TakeOneMore<T>(written: set<T>, all: set<T>, remaining: set<T>, x: T)
    requires x in remaining && remaining <= all
    ensures written + (all - (remaining - {x})) == written + (all - remaining) + {x}
  {
  }

  /** Once every batch has been through the loop, every pending row is
      written and the log has one snapshot per batch. */
  lemma AllBatchesDone(work: Frame, client: Client, pendingRows: seq<nat>, batchSize: nat)
    requires Ready(work) && batchSize > 0
    ensures var batches := Chunks(pendingRows, batchSize);
      && Written(work, client, Elems(Flatten(batches[..|batches|]))) == Written(work, client, Elems(pendingRows))
      && CheckpointLog(work, client, batches[..|batches|]) == CheckpointLog(work, client, batches)
  {
    var batches := Chunks(pendingRows, batchSize);
    assert batches[..|batches|] == batches;
    ChunksFlatten(pendingRows, batchSize);
  }

  /** One pass of the batch loop: the batch is summarised and written back,
      and the table is saved. */
  method NextBatch(work: Frame, client: Client, df: Frame, checkpoints: seq<Frame>, ghost done: seq<seq<nat>>, batch: seq<nat>)
    returns (df': Frame, checkpoints': seq<Frame>)
    requires Ready(work) && forall x :: x in batch ==> x < |work.rows|
    requires df == Written(work, client, Elems(Flatten(done)))
    requires checkpoints == CheckpointLog(work, client, done)
    ensures df' == Written(work, client, Elems(Flatten(done + [batch])))
    ensures checkpoints' == CheckpointLog(work, client, done + [batch])
  {
    df' := RunBatch(work, client, df, Elems(Flatten(done)), batch);
    LogStep(work, client, done, batch);
    checkpoints' := checkpoints + [df'];
  }

  /** The loop over the batches `pending[i:i + batch_size]` for the offsets
      `range(0, total, batch_size)`, which are the pieces `Chunks` cuts (see
      `Seqs.ChunkSlice`), for a positive batch size and at least one pending
      row. The thread pool is created and
      `title` and `summary` are read at the first batch, before anything is
      written, so a non-positive worker count or a missing column stops the run
      with no checkpoint; those checks are made here ahead of the loop. */
  method RunBatches(work: Frame, client: Client, workers: int, pendingRows: seq<nat>, batchSize: int)
    returns (outcome: Result<Frame, Fault>, checkpoints: seq<Frame>)
    requires work.Valid() && SummaryShort in work.columns
    requires forall x :: x in pendingRows ==> x < |work.rows|
    requires pendingRows != [] && batchSize > 0
    ensures outcome == if workers <= 0 then Err(NoWorkers)
      else if TitleColumn !in work.columns then Err(MissingColumn(TitleColumn))
      else if AbstractColumn !in work.columns then Err(MissingColumn(AbstractColumn))
      else Ok(Written(work, client, Elems(pendingRows)))
    ensures checkpoints == if workers > 0 && Ready(work) then CheckpointLog(work, client, Chunks(pendingRows, batchSize)) else []
  {
    if workers <= 0 {
      return Err(NoWorkers), [];
    }
    if TitleColumn !in work.columns {
      return Err(MissingColumn(TitleColumn)), [];
    }
    if AbstractColumn !in work.columns {
      return Err(MissingColumn(AbstractColumn)), [];
    }
    var df;
    df, checkpoints := RunEveryBatch(work, client, pendingRows, batchSize);
    return Ok(df), checkpoints;
  }

  /** The batch loop itself, once the checks before it have passed. */
  method RunEveryBatch(work: Frame, client: Client, pendingRows: seq<nat>, batchSize: int)
    returns (df: Frame, checkpoints: seq<Frame>)
    requires Ready(work) && forall x :: x in pendingRows ==> x < |work.rows|
    requires batchSize > 0
    ensures df == Written(work, client, Elems(pendingRows))
    ensures checkpoints == CheckpointLog(work, client, Chunks(pendingRows, batchSize))
  {
    var batches := Chunks(pendingRows, batchSize);
    WrittenNone(work, client);
    df := work;
    checkpoints := [];
    for k := 0 to |batches|
      invariant df == Written(work, client, Elems(Flatten(batches[..k])))
      invariant checkpoints == CheckpointLog(work, client, batches[..k])
    {
      var batch := batches[k];
      ChunkElems(pendingRows, batchSize, k);
      df, checkpoints := NextBatch(work, client, df, checkpoints, batches[..k], batch);
      TakeSnoc(batches, k);
    }
    AllBatchesDone(work, client, pendingRows, batchSize);
  }

  /** `summarize_all(concurrent_requests, batch_size, limit)` on the fetched
      table (`None` when the file does not exist, which makes `read_csv`
      raise before anything is saved). Results of a batch are written back
      in an arbitrary order (`as_completed`); the table is saved after every
      batch. */
  method SummarizeAll(stored: Option<Frame>, client: Client, workers: int, batchSize: int, limit: int)
    returns (outcome: Result<Frame, Fault>, checkpoints: seq<Frame>)
    requires stored.Some? ==> stored.value.Valid()
    ensures stored.None? ==> outcome == Err(NoStore) && checkpoints == []
    ensures stored.Some? ==> outcome == Outcome(stored.value, client, workers, batchSize, limit)
    ensures stored.Some? ==> checkpoints == Checkpoints(stored.value, client, workers, batchSize, limit)
  {
    if stored.None? {
      return Err(NoStore), [];
    }
    var raw := stored.value;
    var df, pendingRows := LoadWork(raw, limit);
    if batchSize == 0 {
      return Err(ZeroBatchSize), [];
    }
    if batchSize < 0 || pendingRows == [] {
      return Ok(df), [];
    }
    outcome, checkpoints := RunBatches(df, client, workers, pendingRows, batchSize);
  }

  // ---------------------------------------------------------------------------
  // Properties of a run

  /** The service answered with text that strips to nothing. */
  predicate EmptyReply(reply: Reply) {
    reply.Answer? && Strip(reply.content) == ""
  }

  /** A row's result is `""` exactly when its abstract is present and not
      blank and the service's reply to it is empty; the two fixed texts are
      never empty. */
  lemma EmptyResultIffEmptyReply(work: Frame, client: Client, i: nat)
    requires Ready(work) && i < |work.rows|
    ensures WorkerResult(work, client, i) == "" <==>
      At(work, i, AbstractColumn).Some? && !IsBlank(At(work, i, AbstractColumn).value)
      && EmptyReply(client(i, Prompt(CellText(At(work, i, TitleColumn)), At(work, i, AbstractColumn).value)))
  {
    assert NoAbstract[0] != ' ' && GenerationFailed[0] != ' ';
  }

  /** Writing the results of the pending rows changes nothing but
      `summary_short` and only in those rows; afterwards the rows still
      pending are exactly those whose result was `""`. */
  lemma WrittenPending(work: Frame, client: Client)
    requires Ready(work)
    ensures var r := Written(work, client, Elems(Pending(work)));
      && (forall i :: 0 <= i < |work.rows| && !IsPendingCell(At(work, i, SummaryShort)) ==> At(r, i, SummaryShort) == At(work, i, SummaryShort))
      && (forall i :: 0 <= i < |work.rows| ==>
            (IsPendingCell(At(r, i, SummaryShort)) <==> IsPendingCell(At(work, i, SummaryShort)) && WorkerResult(work, client, i) == ""))
  {
    var r := Written(work, client, Elems(Pending(work)));
    forall i | 0 <= i < |work.rows|
      ensures IsPendingCell(At(r, i, SummaryShort)) <==> IsPendingCell(At(work, i, SummaryShort)) && WorkerResult(work, client, i) == ""
    {
      assert i in Elems(Pending(work)) <==> i in Pending(work);
    }
  }

  /** A successful run that sends requests changes nothing but
      `summary_short` and only in the pending rows, and leaves pending exactly
      the rows whose result was `""`, which the next run asks for again. */
  lemma RunLeavesOnlyEmptyResultsPending(raw: Frame, client: Client, workers: int, batchSize: int, limit: int)
    requires raw.Valid()
    requires SendsRequests(raw, batchSize, limit)
    requires Outcome(raw, client, workers, batchSize, limit).Ok?
    ensures var work := Prepare(raw, limit);
      var r := Outcome(raw, client, workers, batchSize, limit).value;
      && Ready(work) && r.columns == work.columns && |r.rows| == |work.rows|
      && (forall i, c :: 0 <= i < |work.rows| && c in work.columns && c != SummaryShort ==> At(r, i, c) == At(work, i, c))
      && (forall i :: 0 <= i < |work.rows| && !IsPendingCell(At(work, i, SummaryShort)) ==> At(r, i, SummaryShort) == At(work, i, SummaryShort))
      && (forall i :: 0 <= i < |work.rows| ==>
            (IsPendingCell(At(r, i, SummaryShort)) <==> IsPendingCell(At(work, i, SummaryShort)) && WorkerResult(work, client, i) == ""))
  {
    var work := Prepare(raw, limit);
    assert Outcome(raw, client, workers, batchSize, limit).value == Written(work, client, Elems(Pending(work)));
    WrittenPending(work, client);
  }

  /** The last snapshot saved is the table the run returns, and there is one
      snapshot per batch: `ceil(pending / batch_size)` of them, stated without
      division. */
  lemma {:induction false} LastCheckpointIsResult(raw: Frame, client: Client, workers: int, batchSize: int, limit: int)
    requires raw.Valid()
    requires SendsRequests(raw, batchSize, limit)
    requires Outcome(raw, client, workers, batchSize, limit).Ok?
    ensures var log := Checkpoints(raw, client, workers, batchSize, limit);
      var pending := |Pending(Prepare(raw, limit))|;
      && log != []
      && log[|log| - 1] == Outcome(raw, client, workers, batchSize, limit).value
      && |log| * batchSize - batchSize < pending <= |log| * batchSize
  {
    var work := Prepare(raw, limit);
    var batches := Chunks(Pending(work), batchSize);
    ChunksSizes(Pending(work), batchSize);
    ChunksFlatten(Pending(work), batchSize);
    assert batches != [];
    assert batches[..|batches|] == batches;
  }
}
