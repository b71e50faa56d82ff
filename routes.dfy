/** The HTTP side: collecting a pull request's changed files, submitting the
    analysis task, and answering status and result queries.

    The GitHub calls are inputs: the status code of the file listing, and for
    each listed file its name, its change status, the status code of the
    request for its content and that content. The task's state, info and
    stored result are inputs too. */
module Routes {
  import opened PyStr
  import opened Services
  import opened Seqs

  /** One entry of the pull request's file listing, with the outcome of the
      request for its raw content. */
  datatype PrEntry = PrEntry(filename: string, status: string, fetchCode: int, text: string)

  /** An `HTTPException`: status code and detail. */
  datatype HttpError = HttpError(statusCode: int, detail: string)

  datatype Result<T> = Ok(value: T) | Err(error: HttpError)

  /** `{"task_id": ..., "message": ...}`. */
  datatype Submitted = Submitted(taskId: string, message: string)

  /** `{"task_id": ..., "status": ..., "error"?: ...}`. */
  datatype StatusResponse = StatusResponse(taskId: string, status: string, error: Option<string>)

  /** The three answers of the results endpoint: the stored results, the
      bare state of a task in any other state, or an `HTTPException`. */
  datatype ResultsResponse =
    | Completed(taskId: string, results: Option<StructuredResults>)
    | InState(taskId: string, status: string)
    | Rejected(error: HttpError)

  const Ok200: int := 200
  const FetchFailed: HttpError := HttpError(500, "Error fetching PR code.")
  const AnalyzeFailed: HttpError := HttpError(500, "Error analyzing PR.")
  const SubmittedMessage: string := "Task submitted successfully"

  // ---------------------------------------------------------------------
  // fetch_pr_code

  /** Only added and modified files are reviewed. */
  predicate Reviewable(e: PrEntry)
  {
    e.status == "added" || e.status == "modified"
  }

  /** An entry makes it into the file list: reviewable, and its content was
      fetched with status 200. */
  predicate Kept(e: PrEntry)
  {
    Reviewable(e) && e.fetchCode == Ok200
  }

  /** The files the listing yields, in listing order. */
  function Fetched(entries: seq<PrEntry>): (files: seq<FileData>)
    ensures |files| <= |entries|
  {
    if entries == [] then []
    else
      var n := |entries| - 1;
      var e := entries[n];
      var before := Fetched(entries[..n]);
      if Kept(e) then before + [FileData(e.filename, e.text)] else before
  }

  /** The files are collected entry by entry, independently of the other
      entries and in listing order: the files of two stretches of the listing
      are those of the first followed by those of the second. */
  lemma {:induction false} FetchedAppend(a: seq<PrEntry>, b: seq<PrEntry>)
    ensures Fetched(a + b) == Fetched(a) + Fetched(b)
    decreases |b|
  {
    if b == [] {
      assert a + b == a;
    } else {
      var m := |b| - 1;
      assert (a + b)[..|a + b| - 1] == a + b[..m];
      FetchedAppend(a, b[..m]);
    }
  }

  /** A single entry contributes its name and content exactly when it is
      kept, and nothing otherwise. */
  lemma FetchedOne(e: PrEntry)
    ensures Fetched([e]) == if Kept(e) then [FileData(e.filename, e.text)] else []
  {
    assert [e][..0] == [];
  }

  /** Every file returned comes from a kept entry, with that entry's name
      and fetched text unchanged; so an entry whose status is neither
      "added" nor "modified" never contributes. */
  lemma {:induction false} FetchedSound(entries: seq<PrEntry>)
    ensures forall f :: f in Fetched(entries) ==>
      exists e :: e in entries && Kept(e) && f == FileData(e.filename, e.text)
  {
    if entries != [] {
      var n := |entries| - 1;
      FetchedSound(entries[..n]);
      forall f | f in Fetched(entries)
        ensures exists e :: e in entries && Kept(e) && f == FileData(e.filename, e.text)
      {
        if f in Fetched(entries[..n]) {
          var e :| e in entries[..n] && Kept(e) && f == FileData(e.filename, e.text);
          assert e in entries;
        } else {
          assert entries[n] in entries;
        }
      }
    }
  }

  /** Every kept entry is returned. */
  lemma {:induction false} FetchedComplete(entries: seq<PrEntry>)
    ensures forall e :: e in entries && Kept(e) ==> FileData(e.filename, e.text) in Fetched(entries)
  {
    if entries != [] {
      var n := |entries| - 1;
      FetchedComplete(entries[..n]);
      assert entries == entries[..n] + [entries[n]];
      forall e | e in entries && Kept(e)
        ensures FileData(e.filename, e.text) in Fetched(entries)
      {
        if e != entries[n] {
          assert e in entries[..n];
        }
      }
    }
  }

  /** A failed content fetch (or a skipped status) drops only that entry:
      the other entries yield what they would without it. */
  lemma DropsOnlyThatEntry(entries: seq<PrEntry>, i: nat)
    requires i < |entries| && !Kept(entries[i])
    ensures Fetched(entries) == Fetched(entries[..i] + entries[i + 1..])
  {
    Splice(entries, i);
    FetchedSplice(entries[..i], entries[i], entries[i + 1..]);
  }


  lemma FetchedSplice(a: seq<PrEntry>, e: PrEntry, b: seq<PrEntry>)
    requires !Kept(e)
    ensures Fetched(a + [e] + b) == Fetched(a + b)
  {
    FetchedAppend(a + [e], b);
    FetchedAppend(a, [e]);
    FetchedOne(e);
    FetchedAppend(a, b);
  }

  /** `fetch_pr_code`. A listing answered with anything but 200 raises an
      `HTTPException` carrying the upstream status, but the function's own
      handler catches it and raises a 500 with a fixed detail instead.
      Otherwise the loop walks the listing and appends the name and content
      of each added or modified file whose content came back with 200;
      the others are skipped. */
  method FetchPrCode(listingCode: int, entries: seq<PrEntry>) returns (r: Result<seq<FileData>>)
    ensures r.Err? <==> listingCode != Ok200
    ensures r.Err? ==> r.error == FetchFailed
    ensures r.Ok? ==> r.value == Fetched(entries)
  {
    if listingCode != Ok200 {
      return Err(FetchFailed);
    }
    var files: seq<FileData> := [];
    var i := 0;
    while i < |entries|
      invariant 0 <= i <= |entries|
      invariant files == Fetched(entries[..i])
    {
      var e := entries[i];
      assert entries[..i + 1][..i] == entries[..i];
      if e.status == "added" || e.status == "modified" {
        if e.fetchCode == Ok200 {
          files := files + [FileData(e.filename, e.text)];
        }
      }
      i := i + 1;
    }
    assert entries[..i] == entries;
    r := Ok(files);
  }

  /** `analyze_pr`: fetch the files and submit the task with them. Any
      failure of the fetch, whatever its status, becomes a 500 with a fixed
      detail, and then nothing is submitted. `taskId` is the id the task
      queue assigns. Returns the response and the files handed to the task
      (None when no task was submitted). */
  method AnalyzePr(listingCode: int, entries: seq<PrEntry>, taskId: string)
    returns (response: Result<Submitted>, submitted: Option<seq<FileData>>)
    ensures response.Err? <==> listingCode != Ok200
    ensures response.Err? ==> response.error == AnalyzeFailed && submitted == None
    ensures response.Ok? ==>
      response.value == Submitted(taskId, SubmittedMessage) && submitted == Some(Fetched(entries))
  {
    var files := FetchPrCode(listingCode, entries);
    if files.Err? {
      return Err(AnalyzeFailed), None;
    }
    response, submitted := Ok(Submitted(taskId, SubmittedMessage)), Some(files.value);
  }

  // ---------------------------------------------------------------------
  // get_status and get_results

  /** `get_status`: the task id echoed, the state reported verbatim, and an
      error field, `str(info)`, exactly when the state is "FAILURE". */
  function GetStatus(taskId: string, state: string, info: string): (r: StatusResponse)
    ensures r.taskId == taskId && r.status == state
    ensures r.error.Some? <==> state == "FAILURE"
    ensures r.error.Some? ==> r.error.value == info
  {
    if state == "PENDING" then StatusResponse(taskId, "PENDING", None)
    else if state == "FAILURE" then StatusResponse(taskId, "FAILURE", Some(info))
    else StatusResponse(taskId, state, None)
  }

  /** `get_results`: 400 while pending, 400 with the failure's info after a
      failure, the stored result unchanged (None included) after success,
      and the bare state otherwise. */
  function GetResults(taskId: string, state: string, info: string, stored: Option<StructuredResults>): (r: ResultsResponse)
    ensures r.Rejected? <==> state == "PENDING" || state == "FAILURE"
    ensures state == "PENDING" ==> r.error == HttpError(400, "Task is still pending")
    ensures state == "FAILURE" ==> r.error == HttpError(400, "Task failed: " + info)
    ensures r.Completed? <==> state == "SUCCESS"
    ensures r.Completed? ==> r.taskId == taskId && r.results == stored
    ensures r.InState? ==> r.taskId == taskId && r.status == state
  {
    if state == "PENDING" then Rejected(HttpError(400, "Task is still pending"))
    else if state == "FAILURE" then Rejected(HttpError(400, "Task failed: " + info))
    else if state == "SUCCESS" then Completed(taskId, stored)
    else InState(taskId, state)
  }

  /** The two endpoints agree: results are refused exactly while the status
      reports PENDING or FAILURE, a failure's detail carries the same text as
      the status's error field, and in any other state but SUCCESS the
      results endpoint reports the same status, with no error. */
  lemma StatusAndResultsAgree(taskId: string, state: string, info: string, stored: Option<StructuredResults>)
    ensures var s, r := GetStatus(taskId, state, info), GetResults(taskId, state, info, stored);
      && (r.Rejected? <==> s.status in {"PENDING", "FAILURE"})
      && (s.error.Some? ==> r == Rejected(HttpError(400, "Task failed: " + s.error.value)))
      && (r.InState? ==> r.status == s.status && s.error.None?)
  {
  }

  /** End to end: the task finishes with whatever the analysis returned, so
      when one file's reply has a malformed `Issue:` line the task still
      succeeds, with None as its result, and the results endpoint answers
      "completed" with no results rather than an error. */
  lemma MalformedReplyCompletesEmpty(files: seq<FileData>, replies: seq<string>, i: nat, taskId: string, info: string)
    requires |replies| == |files| && i < |files|
    requires ParsedIssues(replies[i]) == None
    ensures Analysis(files, replies) == None
    ensures GetResults(taskId, "SUCCESS", info, Analysis(files, replies)) == Completed(taskId, None)
  {
    AnalysisAllOrNothing(files, replies);
  }
}
