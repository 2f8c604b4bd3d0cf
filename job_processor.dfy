/** The job worker: for one stored job it parses the references text, runs
    each reference through search, download and the entry table, writes one
    result per reference and the job's progress after each one, and ends
    with a final status. An in-flight set keeps at most one worker per job,
    and one stop flag, shared by every job, ends all item loops. */
module JobProcessor {
  import opened Common
  import opened Database
  import PubMedSearch
  import ReferenceParser

  /** What a collaborator call did: returned a value, or raised with the
      exception's message. */
  datatype Attempt<T> = Ran(value: T) | Threw(message: string)

  /** The job statuses the worker writes. */
  datatype JobStatus = Processing | Completed | Failed

  datatype ResultStatus = ResultSuccess | ResultFailed | ResultError

  datatype Counts = Counts(completed: nat, failed: nat)

  /** One `update_job_status` call; `counts` when it passes the counters. */
  datatype StatusUpdate = StatusUpdate(jobId: string, status: JobStatus, counts: Option<Counts>)

  /** One `add_job_result` call. */
  datatype JobResult = JobResult(
    jobId: string,
    index: nat,
    status: ResultStatus,
    pmid: Option<string>,
    extractedTitle: Option<string>,
    errorMessage: Option<string>)

  /** The job store, reduced to what the worker does with it: it reads a
      job's references text, and it records every status update and every
      result in call order. The job's own status is never read back. */
  class JobStore {
    /** The `references_text` of each stored job, by job id. */
    const texts: map<string, string>
    var statuses: seq<StatusUpdate>
    var results: seq<JobResult>

    constructor (texts: map<string, string>)
      ensures this.texts == texts && statuses == [] && results == []
    {
      this.texts := texts;
      statuses := [];
      results := [];
    }

    /** `get_job(job_id)['references_text']`, or nothing for an unknown job. */
    function GetJob(jobId: string): Option<string> {
      if jobId in texts then Some(texts[jobId]) else None
    }

    method UpdateJobStatus(jobId: string, status: JobStatus, counts: Option<Counts>)
      modifies this
      ensures statuses == old(statuses) + [StatusUpdate(jobId, status, counts)]
      ensures results == old(results)
    {
      statuses := statuses + [StatusUpdate(jobId, status, counts)];
    }

    method AddJobResult(jobId: string, index: nat, status: ResultStatus,
                        pmid: Option<string>, extractedTitle: Option<string>, errorMessage: Option<string>)
      modifies this
      ensures results == old(results) + [JobResult(jobId, index, status, pmid, extractedTitle, errorMessage)]
      ensures statuses == old(statuses)
    {
      results := results + [JobResult(jobId, index, status, pmid, extractedTitle, errorMessage)];
    }
  }

  // =====================================================================
  // _process_single_reference
  // =====================================================================

  /** The reference dictionary the helper reads: an optional `pmid`, and
      `title`, `first_author` and `original_text`. */
  datatype RefItem = RefItem(pmid: Option<string>, title: Option<string>, firstAuthor: string, originalText: string)

  /** A parsed reference as the worker hands it on: the parser never sets a
      `pmid` key. */
  function ItemOf(p: ReferenceParser.ParsedRef): RefItem {
    RefItem(None, p.data.title, p.data.firstAuthor, p.originalText)
  }

  /** The collaborators of one reference: `search_article` on the title,
      and `download_fulltext`, `download_pdf` and `download_references` on
      a PMID and a file name. Only the last can raise. */
  datatype Services = Services(
    search: Option<string> -> Option<PubMedSearch.Article>,
    fulltext: (string, string) -> bool,
    pdf: (string, string) -> bool,
    references: (string, string) -> Attempt<bool>)

  /** The dictionary the helper returns, by its `status`. */
  datatype ItemOutcome =
    | Success(article: PubMedSearch.Article, filename: string, txt: bool, pdf: bool, refs: bool)
    | Duplicate(pmid: string)
    | SearchFailed(title: Option<string>)
    | Error(message: string)

  /** The helper's result; `known` is what `pmid_exists` answered for the
      reference's own `pmid`. */
  function OutcomeFor(item: RefItem, known: bool, sv: Services): ItemOutcome {
    if item.pmid.Some? && item.pmid.value != [] && known then Duplicate(item.pmid.value)
    else
      var found := sv.search(item.title);
      if found.None? then SearchFailed(item.title)
      else
        var pmid := found.value.pmid;
        var filename := item.firstAuthor + "_" + pmid;
        var txt := sv.fulltext(pmid, filename);
        var pdf := sv.pdf(pmid, filename);
        var refs := sv.references(pmid, filename);
        if refs.Threw? then Error(refs.message) else Success(found.value, filename, txt, pdf, refs.value)
  }

  function ValueOf(t: Option<string>): Value {
    if t.Some? then Str(t.value) else Null
  }

  /** The entry saved when the search finds nothing. */
  function FailedEntry(item: RefItem): map<string, Value> {
    map["pmid" := Null, "filename" := Null, "extraction_status" := Str("pubmed_search_failed"),
        "txt_available" := Bool(false), "pdf_available" := Bool(false), "ref_available" := Bool(false),
        "original_reference" := Str(item.originalText), "extracted_title" := ValueOf(item.title),
        "found_title" := Null, "first_author" := Str(item.firstAuthor)]
  }

  /** The entry saved for a found article. */
  function SuccessEntry(item: RefItem, out: ItemOutcome): map<string, Value>
    requires out.Success?
  {
    map["pmid" := Str(out.article.pmid), "filename" := Str(out.filename), "extraction_status" := Str("success"),
        "txt_available" := Bool(out.txt), "pdf_available" := Bool(out.pdf), "ref_available" := Bool(out.refs),
        "original_reference" := Str(item.originalText), "extracted_title" := ValueOf(item.title),
        "found_title" := Str(out.article.title), "first_author" := Str(item.firstAuthor),
        "journal" := ValueOf(out.article.journal), "year" := ValueOf(out.article.year),
        "doi" := ValueOf(out.article.doi)]
  }

  /** The rows the helper appends to the entry table: one for a search
      failure or a success, none for a duplicate or an error. */
  function EntryRows(item: RefItem, out: ItemOutcome, now: string): seq<Row> {
    match out
    case SearchFailed(_) => [EntryRow(FailedEntry(item), now)]
    case Success(_, _, _, _, _) => [EntryRow(SuccessEntry(item, out), now)]
    case Duplicate(_) => []
    case Error(_) => []
  }

  /** A duplicate needs a non-empty `pmid` the table knows, and so does
      nothing but answer; a search failure is an empty search; a success
      names the found article and the file `first_author_pmid`; an error is
      a raising `download_references`. Only duplicates and errors add no
      entry. */
  lemma OutcomeCases(item: RefItem, known: bool, sv: Services, now: string)
    ensures var out := OutcomeFor(item, known, sv);
      out.Duplicate? <==> item.pmid.Some? && item.pmid.value != [] && known
    ensures var out := OutcomeFor(item, known, sv);
      out.Duplicate? || out.Error? <==> EntryRows(item, out, now) == []
    ensures var out := OutcomeFor(item, known, sv);
      out.SearchFailed? ==> out.title == item.title && sv.search(item.title).None?
    ensures var out := OutcomeFor(item, known, sv);
      out.Success? ==>
        sv.search(item.title) == Some(out.article) &&
        out.filename == item.firstAuthor + "_" + out.article.pmid &&
        sv.references(out.article.pmid, out.filename) == Ran(out.refs)
    ensures var out := OutcomeFor(item, known, sv);
      out.Error? ==>
        (exists a :: sv.search(item.title) == Some(a) &&
           sv.references(a.pmid, item.firstAuthor + "_" + a.pmid) == Threw(out.message))
  {
    var out := OutcomeFor(item, known, sv);
    if out.Error? {
      var a := sv.search(item.title).value;
      assert sv.search(item.title) == Some(a);
    }
  }

  /** The entry of a search failure: no PMID, status `pubmed_search_failed`
      and neither content flag; the `ref_available` key is not a column and
      is dropped. */
  lemma FailedEntryRow(item: RefItem, now: string)
    ensures var row := EntryRow(FailedEntry(item), now);
      Cell(row, "pmid") == Null && Cell(row, "extraction_status") == Str("pubmed_search_failed") &&
      Cell(row, "txt_available") == Bool(false) && Cell(row, "pdf_available") == Bool(false) &&
      "ref_available" !in row
  {
    var entry := FailedEntry(item);
    EntryRowKeys(entry, now);
    EntryRowCell(entry, now, "pmid");
    EntryRowCell(entry, now, "extraction_status");
    EntryRowCell(entry, now, "txt_available");
    EntryRowCell(entry, now, "pdf_available");
  }

  /** The entry of a success: found under its PMID, with its file name and
      status `success`; the `ref_available` key is dropped. */
  lemma SuccessEntryRow(item: RefItem, out: ItemOutcome, now: string)
    requires out.Success?
    ensures var row := EntryRow(SuccessEntry(item, out), now);
      PmidOf(row) == out.article.pmid && Cell(row, "filename") == Str(out.filename) &&
      Succeeded(row) && "ref_available" !in row
  {
    var entry := SuccessEntry(item, out);
    EntryRowKeys(entry, now);
    EntryRowCell(entry, now, "pmid");
    EntryRowCell(entry, now, "filename");
    EntryRowCell(entry, now, "extraction_status");
  }

  /** The entry of a success carries the two download flags. */
  lemma SuccessEntryFlags(item: RefItem, out: ItemOutcome, now: string)
    requires out.Success?
    ensures var row := EntryRow(SuccessEntry(item, out), now);
      Cell(row, "txt_available") == Bool(out.txt) && Cell(row, "pdf_available") == Bool(out.pdf)
  {
    var entry := SuccessEntry(item, out);
    EntryRowCell(entry, now, "txt_available");
    EntryRowCell(entry, now, "pdf_available");
  }

  /** A reference from the parser is never a duplicate, whatever the table
      holds: it carries no `pmid`. */
  lemma ParsedNeverDuplicate(p: ReferenceParser.ParsedRef, known: bool, sv: Services)
    ensures OutcomeFor(ItemOf(p), known, sv) == OutcomeFor(ItemOf(p), false, sv)
    ensures !OutcomeFor(ItemOf(p), known, sv).Duplicate?
  {
  }

  /** The `message` of a non-success outcome (`result.get('message', 'Unknown error')`). */
  function MessageOf(out: ItemOutcome): string {
    match out
    case Duplicate(_) => "PMID already exists in database"
    case SearchFailed(t) => "PubMed search failed for: " + PubMedSearch.PyStr(t)
    case Error(m) => m
    case Success(_, _, _, _, _) => "Unknown error"
  }

  /** The result row the worker writes for item `i`: `success` with the
      PMID, or `failed` with the message, whatever the outcome's own status. */
  function ResultOf(jobId: string, i: nat, p: ReferenceParser.ParsedRef, out: ItemOutcome): JobResult {
    if out.Success? then JobResult(jobId, i, ResultSuccess, Some(out.article.pmid), p.data.title, None)
    else JobResult(jobId, i, ResultFailed, None, p.data.title, Some(MessageOf(out)))
  }

  // =====================================================================
  // _process_job: the item loop as values
  // =====================================================================

  /** The outcomes of the parsed references, in order. */
  function Outcomes(refs: seq<ReferenceParser.ParsedRef>, sv: Services): (r: seq<ItemOutcome>)
    ensures |r| == |refs|
  {
    if refs == [] then []
    else Outcomes(refs[..|refs| - 1], sv) + [OutcomeFor(ItemOf(refs[|refs| - 1]), false, sv)]
  }

  /** `completed_refs` after the outcomes `outs`. */
  function Successes(outs: seq<ItemOutcome>): (n: nat)
    ensures n <= |outs|
  {
    if outs == [] then 0
    else Successes(outs[..|outs| - 1]) + (if outs[|outs| - 1].Success? then 1 else 0)
  }

  function CountsOf(outs: seq<ItemOutcome>): Counts {
    Counts(Successes(outs), |outs| - Successes(outs))
  }

  /** The result rows of the items with outcomes `outs`. */
  function ResultRows(jobId: string, refs: seq<ReferenceParser.ParsedRef>, outs: seq<ItemOutcome>): (r: seq<JobResult>)
    requires |outs| <= |refs|
    ensures |r| == |outs|
  {
    if outs == [] then []
    else
      var k := |outs| - 1;
      ResultRows(jobId, refs, outs[..k]) + [ResultOf(jobId, k, refs[k], outs[k])]
  }

  /** The progress update written after each item. */
  function ProgressLog(jobId: string, outs: seq<ItemOutcome>): (r: seq<StatusUpdate>)
    ensures |r| == |outs|
  {
    if outs == [] then []
    else ProgressLog(jobId, outs[..|outs| - 1]) + [StatusUpdate(jobId, Processing, Some(CountsOf(outs)))]
  }

  /** The entry rows of the items with outcomes `outs`; item `k` is stamped
      `stamps(k)`. */
  function JobRows(refs: seq<ReferenceParser.ParsedRef>, outs: seq<ItemOutcome>, stamps: nat -> string): seq<Row>
    requires |outs| <= |refs|
  {
    if outs == [] then []
    else
      var k := |outs| - 1;
      JobRows(refs, outs[..k], stamps) + EntryRows(ItemOf(refs[k]), outs[k], stamps(k))
  }

  /** `final_status` */
  function FinalStatus(outs: seq<ItemOutcome>): JobStatus {
    if Successes(outs) > 0 then Completed else Failed
  }

  /** How many items the loop runs, from item `i` on: it stops before the
      first item at which the flag is found set. `interrupt(k)` says that
      another thread has called `stop_processing` by the time the flag is
      checked before item `k`. */
  function Halt(i: nat, len: nat, stopped: bool, interrupt: nat -> bool): (n: nat)
    requires i <= len
    ensures i <= n <= len
    decreases len - i
  {
    if i == len then len
    else if stopped || interrupt(i) then i
    else Halt(i + 1, len, stopped, interrupt)
  }

  /** The status writes of a run of the items with outcomes `outs`. */
  function StatusList(jobId: string, outs: seq<ItemOutcome>): (r: seq<StatusUpdate>)
    ensures |r| == |outs| + 2
  {
    [StatusUpdate(jobId, Processing, None)] + ProgressLog(jobId, outs) +
    [StatusUpdate(jobId, FinalStatus(outs), Some(CountsOf(outs)))]
  }

  /** What one worker run leaves behind. */
  datatype Run = Run(statuses: seq<StatusUpdate>, results: seq<JobResult>, rows: seq<Row>, stopped: bool)

  /** `_process_job` for the job text `job`, the reference parser `parse`,
      the flag as the worker starts and the stop requests `interrupt`. */
  function Worker(jobId: string, job: Option<string>, parse: string -> Attempt<seq<ReferenceParser.ParsedRef>>,
                  sv: Services, stamps: nat -> string, stopped: bool, interrupt: nat -> bool): Run
  {
    if job.None? then Run([], [], [], stopped)
    else
      match parse(job.value)
      case Threw(m) =>
        Run([StatusUpdate(jobId, Processing, None), StatusUpdate(jobId, Failed, None)],
            [JobResult(jobId, 0, ResultError, None, None, Some("GPT parsing failed: " + m))], [], stopped)
      case Ran(refs) =>
        var n := Halt(0, |refs|, stopped, interrupt);
        var outs := Outcomes(refs[..n], sv);
        Run(StatusList(jobId, outs), ResultRows(jobId, refs, outs), JobRows(refs, outs, stamps), stopped || n < |refs|)
  }

  /** The worker of a job whose parse succeeded. */
  lemma WorkerRan(jobId: string, job: Option<string>, parse: string -> Attempt<seq<ReferenceParser.ParsedRef>>,
                  sv: Services, stamps: nat -> string, stopped: bool, interrupt: nat -> bool,
                  refs: seq<ReferenceParser.ParsedRef>)
    requires job.Some? && parse(job.value) == Ran(refs)
    ensures var n := Halt(0, |refs|, stopped, interrupt);
      var outs := Outcomes(refs[..n], sv);
      Worker(jobId, job, parse, sv, stamps, stopped, interrupt) ==
        Run(StatusList(jobId, outs), ResultRows(jobId, refs, outs), JobRows(refs, outs, stamps), stopped || n < |refs|)
  {
  }

  // =====================================================================
  // What the worker promises
  // =====================================================================

  lemma {:induction false} OutcomesAt(refs: seq<ReferenceParser.ParsedRef>, sv: Services, k: nat)
    requires k < |refs|
    ensures Outcomes(refs, sv)[k] == OutcomeFor(ItemOf(refs[k]), false, sv)
  {
    if k < |refs| - 1 {
      var init := refs[..|refs| - 1];
      OutcomesAt(init, sv, k);
      assert init[k] == refs[k];
    }
  }

  /** The loop stops only on the flag: every item before the stop point ran
      with the flag clear, the item at the stop point found it set, and a
      flag already set when the worker starts lets no item run. */
  lemma {:induction false} HaltMeaning(i: nat, len: nat, stopped: bool, interrupt: nat -> bool)
    requires i <= len
    ensures forall k :: i <= k < Halt(i, len, stopped, interrupt) ==> !stopped && !interrupt(k)
    ensures Halt(i, len, stopped, interrupt) < len ==> stopped || interrupt(Halt(i, len, stopped, interrupt))
    ensures stopped ==> Halt(i, len, stopped, interrupt) == i
    decreases len - i
  {
    if i == len || stopped || interrupt(i) {
      assert Halt(i, len, stopped, interrupt) == i;
    } else {
      HaltMeaning(i + 1, len, stopped, interrupt);
      assert Halt(i, len, stopped, interrupt) == Halt(i + 1, len, stopped, interrupt);
    }
  }

  lemma {:induction false} ResultRowsAt(jobId: string, refs: seq<ReferenceParser.ParsedRef>, outs: seq<ItemOutcome>, k: nat)
    requires |outs| <= |refs| && k < |outs|
    ensures ResultRows(jobId, refs, outs)[k] == ResultOf(jobId, k, refs[k], outs[k])
  {
    var last := |outs| - 1;
    if k < last {
      ResultRowsAt(jobId, refs, outs[..last], k);
    }
  }

  lemma {:induction false} ProgressLogAt(jobId: string, outs: seq<ItemOutcome>, k: nat)
    requires k < |outs|
    ensures ProgressLog(jobId, outs)[k] == StatusUpdate(jobId, Processing, Some(CountsOf(outs[..k + 1])))
  {
    var last := |outs| - 1;
    if k < last {
      ProgressLogAt(jobId, outs[..last], k);
      assert outs[..last][..k + 1] == outs[..k + 1];
    } else {
      assert outs[..k + 1] == outs;
    }
  }

  /** Neither counter goes down from one prefix of the outcomes to a longer one. */
  lemma {:induction false} CountsGrow(outs: seq<ItemOutcome>, i: nat, j: nat)
    requires i <= j <= |outs|
    ensures Successes(outs[..i]) <= Successes(outs[..j])
    ensures i - Successes(outs[..i]) <= j - Successes(outs[..j])
    decreases j - i
  {
    if i < j {
      CountsGrow(outs, i, j - 1);
      assert outs[..j][..j - 1] == outs[..j - 1];
    }
  }

  /** `completed_refs > 0` exactly when some item succeeded. */
  lemma {:induction false} SuccessesPositive(outs: seq<ItemOutcome>)
    ensures Successes(outs) > 0 <==> exists k :: 0 <= k < |outs| && outs[k].Success?
  {
    if outs != [] {
      var init := outs[..|outs| - 1];
      SuccessesPositive(init);
      if exists k :: 0 <= k < |outs| && outs[k].Success? {
        var k :| 0 <= k < |outs| && outs[k].Success?;
        if k < |init| {
          assert init[k].Success?;
        }
      }
      if exists k :: 0 <= k < |init| && init[k].Success? {
        var k :| 0 <= k < |init| && init[k].Success?;
        assert outs[k].Success?;
      }
    }
  }

  /** An unknown job is left alone: nothing is written. */
  lemma WorkerUnknownJob(jobId: string, parse: string -> Attempt<seq<ReferenceParser.ParsedRef>>,
                         sv: Services, stamps: nat -> string, stopped: bool, interrupt: nat -> bool)
    ensures var run := Worker(jobId, None, parse, sv, stamps, stopped, interrupt);
      run.statuses == [] && run.results == [] && run.rows == [] && run.stopped == stopped
  {
  }

  /** A parser that raises fails the job with one `error` result at index 0,
      and no item runs. */
  lemma WorkerParseFailure(jobId: string, text: string, parse: string -> Attempt<seq<ReferenceParser.ParsedRef>>,
                           sv: Services, stamps: nat -> string, stopped: bool, interrupt: nat -> bool)
    requires parse(text).Threw?
    ensures var run := Worker(jobId, Some(text), parse, sv, stamps, stopped, interrupt);
      run.statuses[|run.statuses| - 1] == StatusUpdate(jobId, Failed, None) &&
      run.results == [JobResult(jobId, 0, ResultError, None, None, Some("GPT parsing failed: " + parse(text).message))] &&
      run.rows == []
  {
  }

  /** The per-item promise: the worker runs each reference up to the stop
      point, in order, and writes exactly one result for each, at its own
      index, `success` exactly when the reference's outcome is a success
      (a duplicate, a search failure and an error all count as `failed`). */
  lemma WorkerResults(jobId: string, text: string, parse: string -> Attempt<seq<ReferenceParser.ParsedRef>>,
                      sv: Services, stamps: nat -> string, stopped: bool, interrupt: nat -> bool)
    requires parse(text).Ran?
    ensures var refs := parse(text).value;
      var run := Worker(jobId, Some(text), parse, sv, stamps, stopped, interrupt);
      |run.results| == Halt(0, |refs|, stopped, interrupt) <= |refs| &&
      forall k :: 0 <= k < |run.results| ==>
        run.results[k].jobId == jobId && run.results[k].index == k &&
        run.results[k].extractedTitle == refs[k].data.title &&
        (run.results[k].status == ResultSuccess <==> OutcomeFor(ItemOf(refs[k]), false, sv).Success?) &&
        run.results[k].status != ResultError
  {
    var refs := parse(text).value;
    var n := Halt(0, |refs|, stopped, interrupt);
    var outs := Outcomes(refs[..n], sv);
    forall k | 0 <= k < n
      ensures ResultRows(jobId, refs, outs)[k] == ResultOf(jobId, k, refs[k], OutcomeFor(ItemOf(refs[k]), false, sv))
    {
      ResultRowsAt(jobId, refs, outs, k);
      OutcomesAt(refs[..n], sv, k);
    }
  }

  /** Progress of `|outs|` items run: counters with or without the last
      outcome. */
  lemma StatusListAt(jobId: string, outs: seq<ItemOutcome>, k: nat)
    requires 1 <= k <= |outs| + 1
    ensures var m := if k <= |outs| then k else |outs|;
      StatusList(jobId, outs)[k] ==
        StatusUpdate(jobId, if k <= |outs| then Processing else FinalStatus(outs), Some(CountsOf(outs[..m])))
  {
    var log := ProgressLog(jobId, outs);
    assert StatusList(jobId, outs)[k] == if k <= |outs| then log[k - 1] else StatusUpdate(jobId, FinalStatus(outs), Some(CountsOf(outs)));
    if k <= |outs| {
      ProgressLogAt(jobId, outs, k - 1);
    } else {
      assert outs[..|outs|] == outs;
    }
  }

  /** The status promise: the job goes to `processing` first; after item
      `k` its progress is written with the counters of the first `k + 1`
      outcomes; the last write is `completed` exactly when some item
      succeeded (so no items means `failed`), with counters summing to the
      number of items run. */
  lemma WorkerStatuses(jobId: string, text: string, parse: string -> Attempt<seq<ReferenceParser.ParsedRef>>,
                       sv: Services, stamps: nat -> string, stopped: bool, interrupt: nat -> bool)
    requires parse(text).Ran?
    ensures var refs := parse(text).value;
      var n := Halt(0, |refs|, stopped, interrupt);
      var run := Worker(jobId, Some(text), parse, sv, stamps, stopped, interrupt);
      |run.statuses| == n + 2 && run.statuses[0] == StatusUpdate(jobId, Processing, None) &&
      (forall k :: 1 <= k <= n ==> run.statuses[k].status == Processing && run.statuses[k].counts.Some?) &&
      run.statuses[n + 1].counts.Some? &&
      run.statuses[n + 1].counts.value.completed + run.statuses[n + 1].counts.value.failed == n &&
      (run.statuses[n + 1].status == Completed <==>
         exists k :: 0 <= k < n && OutcomeFor(ItemOf(refs[k]), false, sv).Success?) &&
      (run.statuses[n + 1].status == Completed || run.statuses[n + 1].status == Failed)
  {
    var refs := parse(text).value;
    var n := Halt(0, |refs|, stopped, interrupt);
    var outs := Outcomes(refs[..n], sv);
    var statuses := StatusList(jobId, outs);
    forall k | 1 <= k <= n
      ensures statuses[k].status == Processing && statuses[k].counts.Some?
    {
      StatusListAt(jobId, outs, k);
    }
    StatusListAt(jobId, outs, n + 1);
    SuccessesPositive(outs);
    forall k | 0 <= k < n
      ensures outs[k] == OutcomeFor(ItemOf(refs[k]), false, sv)
    {
      OutcomesAt(refs[..n], sv, k);
    }
  }

  /** Progress never goes back: along the status writes after the first,
      neither counter decreases. */
  lemma WorkerProgressMonotone(jobId: string, text: string, parse: string -> Attempt<seq<ReferenceParser.ParsedRef>>,
                               sv: Services, stamps: nat -> string, stopped: bool, interrupt: nat -> bool)
    requires parse(text).Ran?
    ensures var run := Worker(jobId, Some(text), parse, sv, stamps, stopped, interrupt);
      forall i, j :: 1 <= i <= j < |run.statuses| ==>
        run.statuses[i].counts.Some? && run.statuses[j].counts.Some? &&
        run.statuses[i].counts.value.completed <= run.statuses[j].counts.value.completed &&
        run.statuses[i].counts.value.failed <= run.statuses[j].counts.value.failed
  {
    var refs := parse(text).value;
    var n := Halt(0, |refs|, stopped, interrupt);
    var outs := Outcomes(refs[..n], sv);
    StatusListMonotone(jobId, outs);
  }

  /** `parse_references` of `reference_parser.py` as the worker's parser,
      with the language model's answers `model`: it never raises. */
  function ReferenceParse(model: string -> Option<map<string, ReferenceParser.Json>>)
    : string -> Attempt<seq<ReferenceParser.ParsedRef>>
  {
    (text: string) => Ran(ReferenceParser.ParsedTexts(ReferenceParser.SplitSpec(text), ReferenceParser.ParserOf(model)))
  }

  /** With the reference parser, a job is never failed by parsing: the
      items are the pieces of the split, and item `k` is written with the
      title parsed from piece `k`. */
  lemma WorkerWithReferenceParser(jobId: string, text: string, model: string -> Option<map<string, ReferenceParser.Json>>,
                                  sv: Services, stamps: nat -> string, stopped: bool, interrupt: nat -> bool)
    ensures var pieces := ReferenceParser.SplitSpec(text);
      var run := Worker(jobId, Some(text), ReferenceParse(model), sv, stamps, stopped, interrupt);
      |run.results| == Halt(0, |pieces|, stopped, interrupt) <= |pieces| &&
      |run.statuses| == |run.results| + 2 && run.statuses[0] == StatusUpdate(jobId, Processing, None) &&
      forall k :: 0 <= k < |run.results| ==>
        run.results[k].index == k && run.results[k].status != ResultError &&
        run.results[k].extractedTitle == ReferenceParser.ParseSingleReference(pieces[k], model(pieces[k])).title
  {
    var pieces := ReferenceParser.SplitSpec(text);
    var parse := ReferenceParse(model);
    ReferenceParser.SplitPiecesClean(text, 0);
    ReferenceParser.ParsedTextsOfClean(pieces, ReferenceParser.ParserOf(model));
    var refs := ReferenceParser.ParsedTexts(pieces, ReferenceParser.ParserOf(model));
    assert parse(text) == Ran(refs);
    WorkerResults(jobId, text, parse, sv, stamps, stopped, interrupt);
    WorkerStatuses(jobId, text, parse, sv, stamps, stopped, interrupt);
    forall k | 0 <= k < |refs|
      ensures refs[k].data.title == ReferenceParser.ParseSingleReference(pieces[k], model(pieces[k])).title
    {
      assert refs[k].data == ReferenceParser.ParserOf(model)(pieces[k]);
    }
  }

  lemma StatusListMonotone(jobId: string, outs: seq<ItemOutcome>)
    ensures var st := StatusList(jobId, outs);
      forall i, j :: 1 <= i <= j < |st| ==>
        st[i].counts.Some? && st[j].counts.Some? &&
        st[i].counts.value.completed <= st[j].counts.value.completed &&
        st[i].counts.value.failed <= st[j].counts.value.failed
  {
    var st := StatusList(jobId, outs);
    forall i, j | 1 <= i <= j < |st|
      ensures st[i].counts.Some? && st[j].counts.Some? &&
        st[i].counts.value.completed <= st[j].counts.value.completed &&
        st[i].counts.value.failed <= st[j].counts.value.failed
    {
      StatusListAt(jobId, outs, i);
      StatusListAt(jobId, outs, j);
      CountsGrow(outs, if i <= |outs| then i else |outs|, if j <= |outs| then j else |outs|);
    }
  }

  /** A worker that starts with the flag set runs no item and fails the job;
      a set flag stays set. */
  lemma WorkerStopped(jobId: string, text: string, parse: string -> Attempt<seq<ReferenceParser.ParsedRef>>,
                      sv: Services, stamps: nat -> string, interrupt: nat -> bool)
    requires parse(text).Ran?
    ensures var run := Worker(jobId, Some(text), parse, sv, stamps, true, interrupt);
      run.results == [] && run.rows == [] && run.stopped &&
      run.statuses == [StatusUpdate(jobId, Processing, None), StatusUpdate(jobId, Failed, Some(Counts(0, 0)))]
  {
    HaltMeaning(0, |parse(text).value|, true, interrupt);
  }

  /** The successful entries a job adds to the table are as many as its
      completed items. */
  lemma {:induction false} JobRowsSucceeded(refs: seq<ReferenceParser.ParsedRef>, outs: seq<ItemOutcome>, stamps: nat -> string)
    requires |outs| <= |refs|
    ensures |Filter(JobRows(refs, outs, stamps), Succeeded)| == Successes(outs)
  {
    if outs != [] {
      var k := |outs| - 1;
      JobRowsSucceeded(refs, outs[..k], stamps);
      var before := JobRows(refs, outs[..k], stamps);
      var item := ItemOf(refs[k]);
      var added := EntryRows(item, outs[k], stamps(k));
      if added == [] {
        assert JobRows(refs, outs, stamps) == before;
      } else {
        FilterSnoc(before, added[0], Succeeded);
        if outs[k].Success? {
          SuccessEntryRow(item, outs[k], stamps(k));
        } else {
          FailedEntryRow(item, stamps(k));
        }
      }
    }
  }

  /** One more outcome bumps exactly one counter. */
  lemma {:induction false} CountsStep(all: seq<ItemOutcome>, i: nat)
    requires i < |all|
    ensures CountsOf(all[..i + 1]) ==
      (if all[i].Success? then Counts(CountsOf(all[..i]).completed + 1, CountsOf(all[..i]).failed)
       else Counts(CountsOf(all[..i]).completed, CountsOf(all[..i]).failed + 1))
  {
    assert all[..i + 1][..i] == all[..i];
  }

  /** The loop over `len` items stops before item `n`: every earlier item
      found the flag clear, and item `n`, if there is one, found it set. */
  ghost predicate StopsAt(n: nat, len: nat, stopped: bool, interrupt: nat -> bool) {
    n <= len && (stopped ==> n == 0) && (forall k :: 0 <= k < n ==> !interrupt(k)) &&
    (n < len ==> stopped || interrupt(n))
  }

  /** `all` holds the outcome of each reference, in order. */
  ghost predicate OutcomesOf(refs: seq<ReferenceParser.ParsedRef>, sv: Services, all: seq<ItemOutcome>) {
    |all| == |refs| && forall k :: 0 <= k < |refs| ==> all[k] == OutcomeFor(ItemOf(refs[k]), false, sv)
  }

  lemma OutcomesOfOutcomes(refs: seq<ReferenceParser.ParsedRef>, sv: Services)
    ensures OutcomesOf(refs, sv, Outcomes(refs, sv))
  {
    forall k | 0 <= k < |refs|
      ensures Outcomes(refs, sv)[k] == OutcomeFor(ItemOf(refs[k]), false, sv)
    {
      OutcomesAt(refs, sv, k);
    }
  }

  /** What the item loop will meet: the outcome of every reference, and
      the point where it stops. */
  lemma ItemPlan(refs: seq<ReferenceParser.ParsedRef>, sv: Services, stopped: bool, interrupt: nat -> bool)
    returns (all: seq<ItemOutcome>, n: nat)
    ensures OutcomesOf(refs, sv, all) && StopsAt(n, |refs|, stopped, interrupt)
    ensures n == Halt(0, |refs|, stopped, interrupt) && all[..n] == Outcomes(refs[..n], sv)
  {
    n := Halt(0, |refs|, stopped, interrupt);
    all := Outcomes(refs, sv);
    OutcomesOfOutcomes(refs, sv);
    OutcomesPrefix(refs, sv, n);
    HaltMeaning(0, |refs|, stopped, interrupt);
  }

  /** The outcomes of the first `i` references are the first `i` outcomes. */
  lemma {:induction false} OutcomesPrefix(refs: seq<ReferenceParser.ParsedRef>, sv: Services, i: nat)
    requires i <= |refs|
    ensures Outcomes(refs[..i], sv) == Outcomes(refs, sv)[..i]
  {
    if i < |refs| {
      var init := refs[..|refs| - 1];
      OutcomesPrefix(init, sv, i);
      assert init[..i] == refs[..i];
    } else {
      assert refs[..i] == refs;
    }
  }

  /** The logs of the item loop each grow by the new item's share, after
      whatever they held before the loop. */
  lemma {:induction false} ProgressLogStep(jobId: string, statuses0: seq<StatusUpdate>, all: seq<ItemOutcome>, i: nat)
    requires i < |all|
    ensures statuses0 + ProgressLog(jobId, all[..i + 1]) ==
      statuses0 + ProgressLog(jobId, all[..i]) + [StatusUpdate(jobId, Processing, Some(CountsOf(all[..i + 1])))]
  {
    assert all[..i + 1][..i] == all[..i];
  }

  lemma {:induction false} ResultRowsStep(jobId: string, results0: seq<JobResult>, refs: seq<ReferenceParser.ParsedRef>,
                       all: seq<ItemOutcome>, i: nat)
    requires i < |all| <= |refs|
    ensures results0 + ResultRows(jobId, refs, all[..i + 1]) ==
      results0 + ResultRows(jobId, refs, all[..i]) + [ResultOf(jobId, i, refs[i], all[i])]
  {
    assert all[..i + 1][..i] == all[..i];
  }

  lemma {:induction false} JobRowsStep(rows0: seq<Row>, refs: seq<ReferenceParser.ParsedRef>, all: seq<ItemOutcome>, i: nat,
                    stamps: nat -> string)
    requires i < |all| <= |refs|
    ensures rows0 + JobRows(refs, all[..i + 1], stamps) ==
      rows0 + JobRows(refs, all[..i], stamps) + EntryRows(ItemOf(refs[i]), all[i], stamps(i))
  {
    var more := all[..i + 1];
    assert more[..i] == all[..i] && more[i] == all[i];
    var head, tail := JobRows(refs, all[..i], stamps), EntryRows(ItemOf(refs[i]), all[i], stamps(i));
    assert JobRows(refs, more, stamps) == head + tail;
    AppendAssoc(rows0, head, tail);
  }

  /** The status writes of a completed run, appended one by one. */
  lemma StatusListAppended(jobId: string, before: seq<StatusUpdate>, outs: seq<ItemOutcome>, final: StatusUpdate)
    requires final == StatusUpdate(jobId, FinalStatus(outs), Some(CountsOf(outs)))
    ensures before + [StatusUpdate(jobId, Processing, None)] + ProgressLog(jobId, outs) + [final] ==
      before + StatusList(jobId, outs)
  {
  }

  // =====================================================================
  // The processor
  // =====================================================================

  class Processor {
    const db: DatabaseManager
    const store: JobStore
    /** `processing_jobs`: the ids of the jobs with a running worker. */
    var processingJobs: set<string>
    /** `stop_event`: one flag for every job. */
    var stopEvent: bool

    ghost predicate Valid()
      reads db
    {
      db.Valid()
    }

    constructor (db: DatabaseManager, store: JobStore)
      requires db.Valid()
      ensures Valid() && this.db == db && this.store == store
      ensures processingJobs == {} && !stopEvent
    {
      this.db := db;
      this.store := store;
      processingJobs := {};
      stopEvent := false;
    }

    /** What the item loop has written after the outcomes `outs`, on top of
        the logs and rows it started from. */
    ghost predicate Logged(jobId: string, refs: seq<ReferenceParser.ParsedRef>, stamps: nat -> string,
                           outs: seq<ItemOutcome>, counts: Counts,
                           statuses0: seq<StatusUpdate>, results0: seq<JobResult>, rows0: seq<Row>)
      reads db, store
    {
      |outs| <= |refs| && counts == CountsOf(outs) &&
      store.statuses == statuses0 + ProgressLog(jobId, outs) &&
      store.results == results0 + ResultRows(jobId, refs, outs) &&
      db.rows == rows0 + (if db.failing then [] else JobRows(refs, outs, stamps))
    }

    /** `_process_single_reference` */
    method ProcessSingleReference(item: RefItem, sv: Services, now: string) returns (outcome: ItemOutcome)
      requires Valid()
      modifies db
      ensures Valid()
      ensures outcome == OutcomeFor(item, item.pmid.Some? && old(db.PmidExists(item.pmid.value)), sv)
      ensures db.rows == old(db.rows) + (if db.failing then [] else EntryRows(item, outcome, now))
    {
      if item.pmid.Some? && item.pmid.value != [] && db.PmidExists(item.pmid.value) {
        return Duplicate(item.pmid.value);
      }
      var pubmedResult := sv.search(item.title);
      if pubmedResult.None? {
        var added := db.AddEntry(FailedEntry(item), now);
        return SearchFailed(item.title);
      }
      var pmid := pubmedResult.value.pmid;
      var filename := item.firstAuthor + "_" + pmid;
      var txtDownloaded := sv.fulltext(pmid, filename);
      var pdfDownloaded := sv.pdf(pmid, filename);
      var refDownloaded := sv.references(pmid, filename);
      if refDownloaded.Threw? {
        return Error(refDownloaded.message);
      }
      outcome := Success(pubmedResult.value, filename, txtDownloaded, pdfDownloaded, refDownloaded.value);
      var added := db.AddEntry(SuccessEntry(item, outcome), now);
    }

    /** The body of the item loop for item `i`: run the reference, record
        its result, then write the progress with the updated counters. */
    method ProcessItem(jobId: string, i: nat, p: ReferenceParser.ParsedRef, sv: Services, now: string, counts: Counts)
      returns (outcome: ItemOutcome, next: Counts)
      requires Valid()
      modifies db, store
      ensures Valid()
      ensures outcome == OutcomeFor(ItemOf(p), false, sv)
      ensures next == if outcome.Success? then Counts(counts.completed + 1, counts.failed)
                      else Counts(counts.completed, counts.failed + 1)
      ensures store.results == old(store.results) + [ResultOf(jobId, i, p, outcome)]
      ensures store.statuses == old(store.statuses) + [StatusUpdate(jobId, Processing, Some(next))]
      ensures db.rows == old(db.rows) + (if db.failing then [] else EntryRows(ItemOf(p), outcome, now))
    {
      outcome := ProcessSingleReference(ItemOf(p), sv, now);
      if outcome.Success? {
        next := Counts(counts.completed + 1, counts.failed);
        store.AddJobResult(jobId, i, ResultSuccess, Some(outcome.article.pmid), p.data.title, None);
      } else {
        next := Counts(counts.completed, counts.failed + 1);
        store.AddJobResult(jobId, i, ResultFailed, None, p.data.title, Some(MessageOf(outcome)));
      }
      store.UpdateJobStatus(jobId, Processing, Some(next));
    }

    /** One turn of the item loop, stated over the logs the loop has
        written since it began. */
    method Advance(jobId: string, refs: seq<ReferenceParser.ParsedRef>, i: nat, sv: Services, stamps: nat -> string,
                   counts: Counts, ghost all: seq<ItemOutcome>,
                   ghost statuses0: seq<StatusUpdate>, ghost results0: seq<JobResult>, ghost rows0: seq<Row>)
      returns (next: Counts)
      requires Valid() && i < |refs| && OutcomesOf(refs, sv, all)
      requires Logged(jobId, refs, stamps, all[..i], counts, statuses0, results0, rows0)
      modifies db, store
      ensures Valid()
      ensures Logged(jobId, refs, stamps, all[..i + 1], next, statuses0, results0, rows0)
    {
      var outcome;
      outcome, next := ProcessItem(jobId, i, refs[i], sv, stamps(i), counts);
      CountsStep(all, i);
      ProgressLogStep(jobId, statuses0, all, i);
      ResultRowsStep(jobId, results0, refs, all, i);
      JobRowsStep(rows0, refs, all, i, stamps);
    }

    /** The item loop of `_process_job`: before each item it checks the
        stop flag, which another thread may have set by then
        (`interrupt(i)`), and leaves the loop if it is set. */
    method ItemLoop(jobId: string, refs: seq<ReferenceParser.ParsedRef>, sv: Services,
                    stamps: nat -> string, interrupt: nat -> bool, ghost all: seq<ItemOutcome>, ghost n: nat)
      returns (counts: Counts)
      requires Valid() && OutcomesOf(refs, sv, all) && StopsAt(n, |refs|, stopEvent, interrupt)
      modifies this, db, store
      ensures Valid() && processingJobs == old(processingJobs)
      ensures Logged(jobId, refs, stamps, all[..n], counts, old(store.statuses), old(store.results), old(db.rows))
      ensures stopEvent == (old(stopEvent) || n < |refs|)
    {
      ghost var statuses0, results0, rows0 := store.statuses, store.results, db.rows;
      // The flag as the loop sees it; another thread sets it before item
      // `i` when `interrupt(i)`.
      var stopped := stopEvent;
      counts := Counts(0, 0);
      var i := 0;
      while i < |refs|
        modifies db, store
        invariant i <= n && stopped == (old(stopEvent) && i == 0)
        invariant db.Valid()
        invariant Logged(jobId, refs, stamps, all[..i], counts, statuses0, results0, rows0)
      {
        if interrupt(i) {
          stopped := true;
        }
        if stopped {
          break;
        }
        counts := Advance(jobId, refs, i, sv, stamps, counts, all, statuses0, results0, rows0);
        i := i + 1;
      }
      assert i == n;
      stopEvent := stopped;
    }

    /** `_process_job`, with the worker thread run to its end: an unknown
        job writes nothing; otherwise the store and the table receive what
        the worker specification `Worker` says, the stop flag is left set
        if the loop stopped early, and the job leaves the in-flight set
        whatever happened. */
    method ProcessJob(jobId: string, parse: string -> Attempt<seq<ReferenceParser.ParsedRef>>,
                      sv: Services, stamps: nat -> string, interrupt: nat -> bool)
      requires Valid()
      modifies this, db, store
      ensures Valid()
      ensures var run := Worker(jobId, store.GetJob(jobId), parse, sv, stamps, old(stopEvent), interrupt);
        store.statuses == old(store.statuses) + run.statuses &&
        store.results == old(store.results) + run.results &&
        db.rows == old(db.rows) + (if db.failing then [] else run.rows) &&
        stopEvent == run.stopped
      ensures processingJobs == old(processingJobs) - {jobId}
    {
      var job := store.GetJob(jobId);
      if job.None? {
        WorkerUnknownJob(jobId, parse, sv, stamps, stopEvent, interrupt);
        processingJobs := processingJobs - {jobId};
        return;
      }
      store.UpdateJobStatus(jobId, Processing, None);
      var parsed := parse(job.value);
      if parsed.Threw? {
        store.UpdateJobStatus(jobId, Failed, None);
        store.AddJobResult(jobId, 0, ResultError, None, None, Some("GPT parsing failed: " + parsed.message));
        processingJobs := processingJobs - {jobId};
        return;
      }
      WorkerRan(jobId, job, parse, sv, stamps, stopEvent, interrupt, parsed.value);
      RunItems(jobId, parsed.value, sv, stamps, interrupt);
      ghost var outs := Outcomes(parsed.value[..Halt(0, |parsed.value|, old(stopEvent), interrupt)], sv);
      StatusListAppended(jobId, old(store.statuses), outs, StatusUpdate(jobId, FinalStatus(outs), Some(CountsOf(outs))));
      processingJobs := processingJobs - {jobId};
    }

    /** The body of `_process_job` once the references are parsed: the item
        loop up to the stop point, then the final status, `completed` when
        some item succeeded. */
    method RunItems(jobId: string, refs: seq<ReferenceParser.ParsedRef>, sv: Services,
                    stamps: nat -> string, interrupt: nat -> bool)
      requires Valid()
      modifies this, db, store
      ensures Valid() && processingJobs == old(processingJobs)
      ensures var n := Halt(0, |refs|, old(stopEvent), interrupt);
        var outs := Outcomes(refs[..n], sv);
        store.statuses == old(store.statuses) + ProgressLog(jobId, outs) +
          [StatusUpdate(jobId, FinalStatus(outs), Some(CountsOf(outs)))] &&
        store.results == old(store.results) + ResultRows(jobId, refs, outs) &&
        db.rows == old(db.rows) + (if db.failing then [] else JobRows(refs, outs, stamps)) &&
        stopEvent == (old(stopEvent) || n < |refs|)
    {
      ghost var all, n := ItemPlan(refs, sv, stopEvent, interrupt);
      var counts := ItemLoop(jobId, refs, sv, stamps, interrupt, all, n);
      var finalStatus := if counts.completed > 0 then Completed else Failed;
      store.UpdateJobStatus(jobId, finalStatus, Some(counts));
    }

    /** `process_job_async`: a job already in flight is refused and nothing
        changes; otherwise the job enters the in-flight set and its worker
        runs (here to its end, so the job has left the set again). */
    method ProcessJobAsync(jobId: string, parse: string -> Attempt<seq<ReferenceParser.ParsedRef>>,
                           sv: Services, stamps: nat -> string, interrupt: nat -> bool) returns (started: bool)
      requires Valid()
      modifies this, db, store
      ensures Valid()
      ensures started <==> jobId !in old(processingJobs)
      ensures !started ==>
        store.statuses == old(store.statuses) && store.results == old(store.results) &&
        db.rows == old(db.rows) && stopEvent == old(stopEvent) && processingJobs == old(processingJobs)
      ensures started ==>
        var run := Worker(jobId, store.GetJob(jobId), parse, sv, stamps, old(stopEvent), interrupt);
        store.statuses == old(store.statuses) + run.statuses &&
        store.results == old(store.results) + run.results &&
        db.rows == old(db.rows) + (if db.failing then [] else run.rows) &&
        stopEvent == run.stopped && processingJobs == old(processingJobs)
    {
      if jobId in processingJobs {
        return false;
      }
      processingJobs := processingJobs + {jobId};
      ProcessJob(jobId, parse, sv, stamps, interrupt);
      started := true;
    }

    /** `stop_processing`: sets the flag every worker checks; nothing else
        changes. */
    method StopProcessing()
      modifies this
      ensures stopEvent && processingJobs == old(processingJobs)
    {
      stopEvent := true;
    }

    /** `get_processing_jobs`: the in-flight ids, each once, in some order. */
    method GetProcessingJobs() returns (jobs: seq<string>)
      ensures |jobs| == |processingJobs|
      ensures forall j :: j in jobs <==> j in processingJobs
      ensures forall a, b :: 0 <= a < b < |jobs| ==> jobs[a] != jobs[b]
    {
      jobs := [];
      var rest := processingJobs;
      while rest != {}
        invariant rest <= processingJobs
        invariant forall j :: j in jobs <==> j in processingJobs - rest
        invariant |jobs| + |rest| == |processingJobs|
        invariant forall a, b :: 0 <= a < b < |jobs| ==> jobs[a] != jobs[b]
        decreases |rest|
      {
        var j :| j in rest;
        assert j !in jobs;
        assert rest == (rest - {j}) + {j};
        jobs := jobs + [j];
        rest := rest - {j};
      }
    }
  }
}
