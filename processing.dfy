/** The batch loop of `handleProcessSelections`: every selection detail becomes one
    result row. Details without metadata or with a non-filterable type are skipped
    first; the others are sent in composite batches of five, in order, and a batch
    that throws marks each of its members as an error while the loop carries on. */
module Processing {
  import opened Wrappers
  import opened JsValues
  import opened Fields
  import opened QueryPlan
  import opened Chunking

  /** A row of the report: `{ sobject, sobjectLabel, field, fieldLabel, nonNullCount,
      sobjectCount, nonNullPercentage, status }`, with None for `null`. */
  datatype ResultEntry = ResultEntry(
    sobject: string,
    sobjectLabel: string,
    field: string,
    fieldLabel: string,
    nonNullCount: Option<real>,
    sobjectCount: Option<real>,
    nonNullPercentage: Option<real>,
    status: string)

  const BatchSize: nat := 5
  const SkippedNoMetadata := "Skipped: field metadata unavailable."
  const SkippedNotFilterable := "Skipped: textarea/address fields cannot be used as filter criteria."
  const MissingResponse := "Error: " + MissingResponseText
  const MissingResponseText := "Missing response from composite batch."

  /** The detail built for a selected `(sobject, field)` pair from the SObject list and
      the field cache. */
  function MakeDetail(pair: FieldRef, sobjects: seq<SObjectEntry>, cache: map<string, seq<FieldMeta>>): (d: BatchDetail)
    ensures d.sobject == pair.sobject && d.field == pair.field
    ensures d.key == BuildFieldKey(pair.sobject, pair.field)
    ensures d.metadata == FindField(if pair.sobject in cache then cache[pair.sobject] else [], pair.field)
    ensures d.sobjectLabel == SObjectLabel(sobjects, pair.sobject)
    ensures d.fieldLabel == (if d.metadata.Some? && d.metadata.value.fieldLabel != "" then d.metadata.value.fieldLabel else pair.field)
    ensures d.fieldLabel != "" || pair.field == ""
  {
    var fields := if pair.sobject in cache then cache[pair.sobject] else [];
    var meta := FindField(fields, pair.field);
    BatchDetail(
      pair.sobject, pair.field, BuildFieldKey(pair.sobject, pair.field),
      SObjectLabel(sobjects, pair.sobject),
      if meta.Some? && meta.value.fieldLabel != "" then meta.value.fieldLabel else pair.field,
      meta)
  }

  /** `detail.metadata && isFilterableField(detail.metadata)`. */
  predicate Requestable(d: BatchDetail) {
    d.metadata.Some? && IsFilterableField(d.metadata)
  }

  /** A row with null counts and the given status. */
  function NullEntry(d: BatchDetail, status: string): ResultEntry {
    ResultEntry(d.sobject, d.sobjectLabel, d.field, d.fieldLabel, None, None, None, status)
  }

  function SkipEntry(d: BatchDetail): ResultEntry {
    NullEntry(d, if d.metadata.None? then SkippedNoMetadata else SkippedNotFilterable)
  }

  /** The rows of the first pass: one per detail that is not requestable, in order. */
  function Skipped(details: seq<BatchDetail>): seq<ResultEntry> {
    if details == [] then []
    else
      var last := details[|details| - 1];
      Skipped(details[..|details| - 1]) + (if Requestable(last) then [] else [SkipEntry(last)])
  }

  /** `selectionDetails.filter(...)`: the requestable details, in order. */
  function RequestableDetails(details: seq<BatchDetail>): (r: seq<BatchDetail>)
    ensures forall i | 0 <= i < |r| :: Requestable(r[i])
  {
    if details == [] then []
    else
      var last := details[|details| - 1];
      RequestableDetails(details[..|details| - 1]) + (if Requestable(last) then [last] else [])
  }

  /** Skipped and requestable details together account for every detail. */
  lemma {:induction false} Partition(details: seq<BatchDetail>)
    ensures |Skipped(details)| + |RequestableDetails(details)| == |details|
  {
    if details != [] {
      Partition(details[..|details| - 1]);
    }
  }

  /** Every skipped row carries one of the two skip statuses and null counts. */
  lemma {:induction false} SkippedRows(details: seq<BatchDetail>)
    ensures forall k | 0 <= k < |Skipped(details)| ::
      Skipped(details)[k].status in {SkippedNoMetadata, SkippedNotFilterable} &&
      Skipped(details)[k].nonNullPercentage.None?
  {
    if details != [] {
      SkippedRows(details[..|details| - 1]);
    }
  }

  /** `error.message || error` in a template literal. Every error the batch path
      throws carries a non-empty message, which is printed; for an empty one the
      model prints "Error", the text of a plain `Error` without a message. */
  function ErrorText(message: string): (r: string)
    ensures r != ""
  {
    if message == "" then "Error" else message
  }

  /** The row pushed for one requestable detail once its batch has been fetched. */
  function EntryFor(d: BatchDetail, fetched: Result<map<string, Outcome>, string>, rt: Runtime): ResultEntry {
    match fetched
    case Failure(msg) => NullEntry(d, "Error: " + ErrorText(msg))
    case Success(m) =>
      if d.key !in m then NullEntry(d, MissingResponse)
      else
        match m[d.key]
        case ErrorOutcome(e) => NullEntry(d, "Error: " + Text(e, rt))
        case PlanOutcome(p) =>
          ResultEntry(d.sobject, d.sobjectLabel, d.field, d.fieldLabel,
            Some(p.nonNullCount), Some(p.sobjectCount), Some(p.nonNullPercentage), "Success")
  }

  /** The rows of one batch, one per member, in member order. */
  function ChunkEntries(chunk: seq<BatchDetail>, fetched: Result<map<string, Outcome>, string>, rt: Runtime): (r: seq<ResultEntry>)
    ensures |r| == |chunk|
  {
    seq(|chunk|, j requires 0 <= j < |chunk| => EntryFor(chunk[j], fetched, rt))
  }

  /** The composite batches: the requestable details in chunks of five. */
  function Batches(details: seq<BatchDetail>): seq<seq<BatchDetail>> {
    Chunks(RequestableDetails(details), BatchSize)
  }

  /** The rows of every batch, `call(c)` being the answer to the c-th composite call. */
  function ChunkResults(details: seq<BatchDetail>, call: nat -> CallResult, rt: Runtime): (r: seq<seq<ResultEntry>>)
    ensures |r| == |Batches(details)|
    ensures forall c | 0 <= c < |r| :: |r[c]| == |Batches(details)[c]|
  {
    var cs := Batches(details);
    var r := seq(|cs|, c requires 0 <= c < |cs| => ChunkEntries(cs[c], FetchSpec(cs[c], call(c), rt), rt));
    assert forall c | 0 <= c < |cs| :: |r[c]| == |ChunkEntries(cs[c], FetchSpec(cs[c], call(c), rt), rt)|;
    r
  }

  /** All rows, in push order: the skipped rows, then the batches' rows. */
  function RunSpec(details: seq<BatchDetail>, call: nat -> CallResult, rt: Runtime): seq<ResultEntry> {
    Skipped(details) + Flatten(ChunkResults(details, call, rt))
  }

  /** 1, 2, …, n: the progress counts shown after each requestable detail. */
  function Counts(n: nat): (r: seq<nat>)
    ensures |r| == n && forall k | 0 <= k < n :: r[k] == k + 1
  {
    if n == 0 then [] else Counts(n - 1) + [n]
  }

  /** The first pass (`selectionDetails.forEach`): a row for each detail that is not
      requestable. */
  method SkipPass(details: seq<BatchDetail>) returns (results: seq<ResultEntry>)
    ensures results == Skipped(details)
  {
    results := [];
    var i := 0;
    while i < |details|
      invariant 0 <= i <= |details|
      invariant results == Skipped(details[..i])
    {
      assert details[..i + 1][..i] == details[..i];
      if !Requestable(details[i]) {
        results := results + [SkipEntry(details[i])];
      }
      i := i + 1;
    }
    assert details[..i] == details;
  }

  /** `chunk.forEach` after a batch was fetched (or threw): count each member, show
      the progress when there are requests at all, and push its row. */
  method PushBatchRows(results: seq<ResultEntry>, completed: nat, progress: seq<nat>, totalRequests: nat,
                       chunk: seq<BatchDetail>, fetched: Result<map<string, Outcome>, string>, rt: Runtime)
    returns (results': seq<ResultEntry>, completed': nat, progress': seq<nat>)
    requires progress == if totalRequests > 0 then Counts(completed) else []
    ensures results' == results + ChunkEntries(chunk, fetched, rt)
    ensures completed' == completed + |chunk|
    ensures progress' == if totalRequests > 0 then Counts(completed') else []
  {
    ghost var want := ChunkEntries(chunk, fetched, rt);
    results', completed', progress' := results, completed, progress;
    var j := 0;
    while j < |chunk|
      invariant 0 <= j <= |chunk|
      invariant results' == results + want[..j]
      invariant completed' == completed + j
      invariant progress' == if totalRequests > 0 then Counts(completed') else []
    {
      completed' := completed' + 1;
      if totalRequests > 0 {
        assert Counts(completed') == Counts(completed' - 1) + [completed'];
        progress' := progress' + [completed'];
      }
      var entry := EntryFor(chunk[j], fetched, rt);
      assert want[j] == entry;
      PrefixSnoc(results, want, j);
      results' := results' + [entry];
      j := j + 1;
    }
    assert want[..j] == want;
  }

  lemma PrefixSnoc<T>(s: seq<T>, t: seq<T>, j: nat)
    requires j < |t|
    ensures s + t[..j + 1] == (s + t[..j]) + [t[j]]
  {
    assert t[..j + 1] == t[..j] + [t[j]];
  }

  /** The two passes of `handleProcessSelections` over the details. `completed` is
      `completedRequests`, `calls` counts composite calls and `progress` lists the
      counts shown in the progress line. */
  method Run(details: seq<BatchDetail>, totalRequests: nat, call: nat -> CallResult, rt: Runtime)
    returns (results: seq<ResultEntry>, completed: nat, calls: nat, progress: seq<nat>)
    ensures results == RunSpec(details, call, rt)
    ensures completed == |RequestableDetails(details)|
    ensures calls == CeilDiv(|RequestableDetails(details)|, BatchSize)
    ensures progress == if totalRequests > 0 then Counts(completed) else []
  {
    results := SkipPass(details);
    var requestable := RequestableDetails(details);
    var chunks := ChunkArray(requestable, BatchSize);
    ghost var rows := ChunkResults(details, call, rt);
    completed, calls, progress := 0, 0, [];
    var c := 0;
    while c < |chunks|
      invariant 0 <= c <= |chunks|
      invariant results == Skipped(details) + Flatten(rows[..c])
      invariant completed == |Flatten(chunks[..c])| && calls == c
      invariant progress == if totalRequests > 0 then Counts(completed) else []
    {
      var chunk := chunks[c];
      ChunkLength(requestable, BatchSize, c);
      var fetched, invoked := FetchQueryPlansBatch(chunk, call(c), rt);
      if invoked {
        calls := calls + 1;
      }
      assert rows[c] == ChunkEntries(chunk, fetched, rt);
      ghost var prefix := Flatten(rows[..c]);
      results, completed, progress := PushBatchRows(results, completed, progress, totalRequests, chunk, fetched, rt);
      FlattenSnoc(chunks, c);
      FlattenSnoc(rows, c);
      AppendAssoc(Skipped(details), prefix, rows[c]);
      c := c + 1;
    }
    assert chunks[..c] == chunks && rows[..c] == rows;
    ChunksShape(requestable, BatchSize);
    ChunkCount(requestable, BatchSize);
  }

  /** One row per selection detail. */
  lemma RunLength(details: seq<BatchDetail>, call: nat -> CallResult, rt: Runtime)
    ensures |RunSpec(details, call, rt)| == |details|
  {
    Partition(details);
    ChunksShape(RequestableDetails(details), BatchSize);
    FlattenSameLength(ChunkResults(details, call, rt), Batches(details));
  }

  /** The skipped rows come first, in the order of their details. */
  lemma SkippedFirst(details: seq<BatchDetail>, call: nat -> CallResult, rt: Runtime)
    ensures |Skipped(details)| <= |RunSpec(details, call, rt)|
    ensures RunSpec(details, call, rt)[..|Skipped(details)|] == Skipped(details)
  {
    var s := Skipped(details);
    assert (s + Flatten(ChunkResults(details, call, rt)))[..|s|] == s;
  }

  /** Member `j` of batch `c` is requestable detail `5c + j`, and its row sits right
      after the skipped rows and the rows of the `c` earlier batches. */
  lemma RowOfMember(details: seq<BatchDetail>, call: nat -> CallResult, rt: Runtime, c: nat, j: nat)
    requires c < |Batches(details)| && j < |Batches(details)[c]|
    ensures c * BatchSize + j < |RequestableDetails(details)|
    ensures Batches(details)[c][j] == RequestableDetails(details)[c * BatchSize + j]
    ensures |Skipped(details)| + c * BatchSize + j < |RunSpec(details, call, rt)|
    ensures RunSpec(details, call, rt)[|Skipped(details)| + c * BatchSize + j]
         == EntryFor(Batches(details)[c][j], FetchSpec(Batches(details)[c], call(c), rt), rt)
  {
    BatchMember(details, c, j);
    RunRow(details, call, rt, c, j);
    BatchRow(details, call, rt, c, j);
  }

  /** Row `j` of batch `c` sits at `5c + j` after the skipped rows. */
  lemma RunRow(details: seq<BatchDetail>, call: nat -> CallResult, rt: Runtime, c: nat, j: nat)
    requires c < |Batches(details)| && j < |Batches(details)[c]|
    ensures j < |ChunkResults(details, call, rt)[c]|
    ensures |Skipped(details)| + c * BatchSize + j < |RunSpec(details, call, rt)|
    ensures RunSpec(details, call, rt)[|Skipped(details)| + c * BatchSize + j] == ChunkResults(details, call, rt)[c][j]
  {
    var rows := ChunkResults(details, call, rt);
    RowsIndex(details, call, rt, c, j);
    ConcatIndex(Skipped(details), Flatten(rows), c * BatchSize + j);
  }

  /** Member `j` of batch `c` is requestable detail `5c + j`. */
  lemma BatchMember(details: seq<BatchDetail>, c: nat, j: nat)
    requires c < |Batches(details)| && j < |Batches(details)[c]|
    ensures c * BatchSize + j < |RequestableDetails(details)|
    ensures Batches(details)[c][j] == RequestableDetails(details)[c * BatchSize + j]
  {
    ChunkAt(RequestableDetails(details), BatchSize, c);
  }

  /** Row `j` of batch `c` is the entry of its member under that batch's answer. */
  lemma BatchRow(details: seq<BatchDetail>, call: nat -> CallResult, rt: Runtime, c: nat, j: nat)
    requires c < |Batches(details)| && j < |Batches(details)[c]|
    ensures j < |ChunkResults(details, call, rt)[c]|
    ensures ChunkResults(details, call, rt)[c][j]
         == EntryFor(Batches(details)[c][j], FetchSpec(Batches(details)[c], call(c), rt), rt)
  {
    var cs := Batches(details);
    assert ChunkResults(details, call, rt)[c] == ChunkEntries(cs[c], FetchSpec(cs[c], call(c), rt), rt);
  }

  /** Row `j` of batch `c` sits at `5c + j` among the batches' rows. */
  lemma RowsIndex(details: seq<BatchDetail>, call: nat -> CallResult, rt: Runtime, c: nat, j: nat)
    requires c < |Batches(details)| && j < |Batches(details)[c]|
    ensures c * BatchSize + j < |Flatten(ChunkResults(details, call, rt))|
    ensures Flatten(ChunkResults(details, call, rt))[c * BatchSize + j] == ChunkResults(details, call, rt)[c][j]
  {
    var cs := Batches(details);
    var rows := ChunkResults(details, call, rt);
    ChunksBefore(RequestableDetails(details), BatchSize, c);
    assert forall i | 0 <= i < c :: |rows[..c][i]| == |cs[..c][i]|;
    FlattenSameLength(rows[..c], cs[..c]);
    FlattenIndex(rows, c, j);
  }

  lemma ConcatIndex<T>(s: seq<T>, t: seq<T>, i: nat)
    requires i < |t|
    ensures |s| + i < |s + t| && (s + t)[|s| + i] == t[i]
  {
  }

  /** A batch whose call throws marks each of its members "Error: <message>" with null
      counts. */
  lemma FailedBatchRows(details: seq<BatchDetail>, call: nat -> CallResult, rt: Runtime, c: nat, j: nat)
    requires c < |Batches(details)| && j < |Batches(details)[c]| && call(c).CallFailed?
    ensures var k := |Skipped(details)| + c * BatchSize + j;
      k < |RunSpec(details, call, rt)| && c * BatchSize + j < |RequestableDetails(details)| &&
      RunSpec(details, call, rt)[k] ==
        NullEntry(RequestableDetails(details)[c * BatchSize + j], "Error: " + ErrorText(call(c).message))
  {
    RowOfMember(details, call, rt, c, j);
  }

  /** A failure stays inside its batch: two runs whose calls differ only for batch `f`
      agree on every row outside that batch. */
  lemma FailureStaysInBatch(details: seq<BatchDetail>, call1: nat -> CallResult, call2: nat -> CallResult,
                            rt: Runtime, f: nat, c: nat, j: nat)
    requires forall b :: b != f ==> call1(b) == call2(b)
    requires c != f && c < |Batches(details)| && j < |Batches(details)[c]|
    ensures var k := |Skipped(details)| + c * BatchSize + j;
      k < |RunSpec(details, call1, rt)| && k < |RunSpec(details, call2, rt)| &&
      RunSpec(details, call1, rt)[k] == RunSpec(details, call2, rt)[k]
  {
    RowOfMember(details, call1, rt, c, j);
    RowOfMember(details, call2, rt, c, j);
    assert call1(c) == call2(c);
  }

  /** A row reports "Success" exactly when it carries a percentage, and then it
      carries both counts too. */
  ghost predicate SuccessIffCounts(row: ResultEntry) {
    && ((row.status == "Success") <==> row.nonNullPercentage.Some?)
    && (row.nonNullPercentage.Some? ==> row.nonNullCount.Some? && row.sobjectCount.Some?)
  }

  lemma ErrorIsNotSuccess(t: string)
    ensures "Error: " + t != "Success"
  {
    var e := "Error: " + t;
    if |e| == 7 {
      assert e[..7] == "Error: ";
      assert e[6] == ' ' && "Success"[6] == 's';
    }
  }

  lemma ErrorRowConsistent(d: BatchDetail, t: string)
    ensures SuccessIffCounts(NullEntry(d, "Error: " + t))
  {
    ErrorIsNotSuccess(t);
  }

  lemma EntryConsistent(d: BatchDetail, fetched: Result<map<string, Outcome>, string>, rt: Runtime)
    ensures SuccessIffCounts(EntryFor(d, fetched, rt))
  {
    match fetched
    case Failure(msg) =>
      ErrorRowConsistent(d, ErrorText(msg));
    case Success(m) =>
      if d.key !in m {
        ErrorRowConsistent(d, MissingResponseText);
      } else {
        match m[d.key]
        case ErrorOutcome(e) =>
          ErrorRowConsistent(d, Text(e, rt));
        case PlanOutcome(p) =>
      }
  }

  lemma SkipConsistent(d: BatchDetail)
    ensures SuccessIffCounts(SkipEntry(d))
  {
    var status := SkipEntry(d).status;
    assert |status| > |"Success"|;
  }

  lemma {:induction false} FlattenRowsConsistent(rss: seq<seq<ResultEntry>>)
    requires forall c, j | 0 <= c < |rss| && 0 <= j < |rss[c]| :: SuccessIffCounts(rss[c][j])
    ensures forall k | 0 <= k < |Flatten(rss)| :: SuccessIffCounts(Flatten(rss)[k])
  {
    if rss != [] {
      FlattenRowsConsistent(rss[1..]);
      assert Flatten(rss) == rss[0] + Flatten(rss[1..]);
    }
  }

  lemma {:induction false} SkippedConsistent(details: seq<BatchDetail>)
    ensures forall k | 0 <= k < |Skipped(details)| :: SuccessIffCounts(Skipped(details)[k])
  {
    if details != [] {
      var last := details[|details| - 1];
      SkippedConsistent(details[..|details| - 1]);
      SkipConsistent(last);
    }
  }

  /** In every run, each row says "Success" exactly when it has a percentage. */
  lemma RunRowsConsistent(details: seq<BatchDetail>, call: nat -> CallResult, rt: Runtime)
    ensures forall k | 0 <= k < |RunSpec(details, call, rt)| :: SuccessIffCounts(RunSpec(details, call, rt)[k])
  {
    var rows := ChunkResults(details, call, rt);
    var cs := Batches(details);
    forall c, j | 0 <= c < |rows| && 0 <= j < |rows[c]| ensures SuccessIffCounts(rows[c][j]) {
      EntryConsistent(cs[c][j], FetchSpec(cs[c], call(c), rt), rt);
    }
    FlattenRowsConsistent(rows);
    SkippedConsistent(details);
  }

  /** A batch answered with fewer sub-responses than members gives the unanswered
      members "Error: Missing response from composite batch.". */
  lemma UnansweredMember(chunk: seq<BatchDetail>, subs: seq<Json>, rt: Runtime, j: nat)
    requires DistinctKeys(chunk) && |subs| <= j < |chunk|
    requires DemuxSpec(chunk, subs, rt).Success?
    ensures EntryFor(chunk[j], DemuxSpec(chunk, subs, rt), rt) == NullEntry(chunk[j], MissingResponse)
  {
    DemuxSucceeds(chunk, subs, rt);
    var keys := set i | 0 <= i < |subs| :: chunk[i].key;
    assert chunk[j].key !in keys;
  }
}
