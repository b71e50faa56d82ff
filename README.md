# AI pull-request code reviewer: parsing, filtering and task responses

The reviewer service takes a GitHub pull request and collects its added and
modified files. It submits them to a Celery task. For each file the task asks
a language model for a review and reads the free-text reply into structured
issues. The results and the task's state are served back over HTTP.

This project models the deterministic core of that service in Dafny:

- `pystr.dfy` (module `PyStr`): the Python string operations the core relies
  on, with Python's semantics. These are `sub in s`, `s.split(sep)`,
  `s.strip()`, `s.lower()` and `int(s)`, plus `str(n)` as the reference that
  `int` inverts.
- `services.dfy` (module `Services`): the reply parser and result builder of
  `analyze_code_with_gemini`, and the pass-through of `analyze_pr_task`.
  - Each line of a reply that contains `Issue:` is split on `" | "`.
  - Each of the first four segments yields the stripped text between its
    first and second colon.
  - The second segment's value goes through `int()`.
  - Any failure in any file makes the whole result None.
  - The per-line and per-file loops are methods. Each is proved equal to a
    specification function (`ParsedIssues`, `Analysis`), and the source's
    promises are proved as lemmas about those functions.
- `routes.dfy` (module `Routes`): the routes.
  - `fetch_pr_code` is a loop that filters the pull request's file listing.
  - `analyze_pr` wraps every fetch failure as a 500.
  - `get_status` and `get_results` are case splits on the task state.
- `seqs.dfy` (module `Seqs`): sequence identities used by the proofs.

The inputs that the real system obtains over the network are parameters:

- the model's reply text for each file, as a sequence parallel to the files;
- the status code of the file-listing request;
- for each listed file: its name, its change status, the status code of its
  content request and the fetched text;
- the task id the queue assigns;
- the task's state, its info and its stored result.

## Model

| member | source | states |
|---|---|---|
| PyStr.Find | services.py:48 | `sub in s` finds the leftmost occurrence of `sub`, and it reports none exactly when `sub` occurs nowhere |
| PyStr.JoinSplit | services.py:46 | splitting loses nothing: joining the pieces of `s.split(sep)` with `sep` gives back `s` |
| PyStr.SplitPiecesFree | services.py:46-49 | no piece produced by `split(sep)` contains `sep` |
| PyStr.SplitJoin | services.py:46 | splitting text joined with a one-character separator that no piece contains gives back exactly those pieces |
| PyStr.SplitAtOccurrence | services.py:49 | the first piece of a split ends at the leftmost occurrence of the separator, and splitting resumes right after it |
| PyStr.Strip | services.py:51 | the result of `strip()` neither starts nor ends with whitespace |
| PyStr.StripPadded | services.py:51 | `strip()` removes exactly the whitespace padding around a core that does not itself start or end with whitespace |
| PyStr.ParseShow | services.py:52 | `int(str(n)) == n` for every integer, negative ones included; in Python this holds up to the interpreter's limit on decimal digits (see Left out) |
| Services.FieldBetweenColons | services.py:51-54 | a field's value is the stripped text strictly between the segment's first and second colon (or the end of the segment), not everything after the first colon |
| Services.FieldWithoutColon | services.py:51-54 | a segment with no colon has no value: the `[1]` index is out of range |
| Services.FieldOfNamedValue | services.py:51-54 | `name: value` yields the stripped value, and `name: value: more` yields the same value, cut at the second colon |
| Services.IssueOfSegments | services.py:49-55 | a line made of at least four segments joined by the field separator, whose first four segments hold no bar character, yields an issue exactly when each of the first four has a colon and the second's value is an integer; segments after the fourth play no part |
| Services.LeadingSegments | services.py:49 | splitting joined segments on the field separator gives back each leading segment that holds no bar character |
| Services.ParseFormatIssue | services.py:49-55 | reading back a line written in the `Issue:`, `Line:`, `Description:`, `Suggestion:` format the parser expects gives back that issue, for plain field texts and every integer `n` |
| Services.FormatIssueLine | services.py:46-48 | such a line stays on one line and holds the marker `Issue:` |
| Services.ParseFormatReply | services.py:45-56 | a reply written one issue per line in that format is read back as exactly those issues, in order |
| Services.IssueLines | services.py:47-48 | every selected line holds the marker, and there are no more selected lines than lines |
| Services.IssueLinesAt | services.py:47-48 | the filter is complete and keeps order: the line at any position is kept, between the lines kept before it and those kept after it, exactly when it holds the marker |
| Services.IssueLinesAppend | services.py:47-48 | lines are selected one by one: the lines selected from two stretches of text are those of the first followed by those of the second |
| Services.IssueLinesAllMarked | services.py:47-48 | lines that all hold the marker are all selected, in order |
| Services.NoMarkerNoIssues | services.py:45-48 | a reply with no line containing `Issue:` yields an empty issue list, not None |
| Services.ParseAllOneToOne | services.py:45-56 | the selected lines give issues exactly when each of them parses; the k-th issue is then the k-th selected line's |
| Services.CollectAllOrNothing | services.py:33-74 | evaluating items one after another with the first exception abandoning the rest gives every value one to one and in order, or None exactly when some item fails |
| Services.MalformedLineSpoilsReply | services.py:47-56 | one marked line that does not parse makes the whole reply fail, wherever it stands |
| Services.FailureSticks | services.py:45-56 | once a prefix of the lines fails, the whole reply fails whatever follows |
| Services.ParseIssues | services.py:45-56 | the per-line loop returns exactly the issues of the reply's marked lines in order, or None when one of them fails |
| Services.IsBugSpellings | services.py:68 | an issue counts as critical exactly when its type is "bug" in some mix of letter cases |
| Services.CountBugs | services.py:68 | the number of critical issues never exceeds the number of issues |
| Services.SummaryCounts | services.py:63-70 | `total_files` is the number of file entries, `total_issues` the number of issues across them, `critical_issues` the number of those of type "bug", and so at most `total_issues` |
| Services.ReportsPerFile | services.py:32-61 | reports exist exactly when every file's reply parses; then there is one per file, in input order, with the filename unchanged and that file's issues |
| Services.AnalysisAllOrNothing | services.py:32-74 | the analysis is None exactly when some file's reply fails to parse; otherwise it lists every file once in order and its summary counts are those of the listed issues |
| Services.AnalyzeCode | services.py:32-74 | the per-file loop returns exactly the analysis of the files and replies |
| Services.AnalyzePrTask | services.py:76-87 | the task returns the analysis unchanged, None included, and never retries |
| Routes.Fetched | routes.py:32-46 | the fetched files are never more than the listed entries |
| Routes.FetchedAppend | routes.py:34-44 | entries are filtered one by one: the files of two stretches of the listing are those of the first followed by those of the second |
| Routes.FetchedOne | routes.py:35-42 | a single entry yields its name and text when it is added or modified and its content came back with 200, and nothing otherwise |
| Routes.FetchedSound | routes.py:34-42 | every returned file comes from an added or modified entry whose content came back with 200, with that entry's filename and text unchanged |
| Routes.FetchedComplete | routes.py:34-42 | every added or modified entry whose content came back with 200 is returned |
| Routes.DropsOnlyThatEntry | routes.py:38-44 | an entry that is skipped (failed fetch or other status) drops only itself: the rest yield what they would without it |
| Routes.FetchPrCode | routes.py:18-49 | the fetch fails exactly when the listing is not 200, always with 500 "Error fetching PR code." and not the upstream status; otherwise it returns the filtered files |
| Routes.AnalyzePr | routes.py:51-63 | a failed fetch becomes 500 "Error analyzing PR." and nothing is submitted; otherwise the fetched files are submitted and the task id is returned with "Task submitted successfully" |
| Routes.GetStatus | routes.py:66-75 | the status echoes the task id and the state, and carries an error field exactly when the state is "FAILURE", holding the info |
| Routes.GetResults | routes.py:77-93 | PENDING gives 400 "Task is still pending"; FAILURE gives 400 "Task failed: " and the info; SUCCESS gives "completed" with the stored result unchanged; any other state gives the bare state |
| Routes.StatusAndResultsAgree | routes.py:66-93 | the two endpoints agree: results are refused exactly while the status says PENDING or FAILURE, and a failure's detail carries the status's error text |
| Routes.MalformedReplyCompletesEmpty | routes.py:86-92 | a malformed `Issue:` line in any file's reply gives a successful task whose results endpoint answers "completed" with no results, not an error |

## Where the design description and the code differ

The model follows the code in each case.

- The field separator is the three characters `" | "`, not a bare `|`.
- A field's value ends at the second colon of its segment, rather than being everything after the first colon.
- There is no lenient parsing mode. One malformed `Issue:` line makes the whole analysis, across all files, return None.
- That None is returned normally, so the task succeeds with no results. A parse failure never triggers the retry.
- The summary has no severity buckets. `critical_issues` counts only the type "bug", case-insensitively.
- A non-200 file listing is not passed through with its upstream status. The handler in `fetch_pr_code` turns it into 500 "Error fetching PR code.", and `analyze_pr` turns that into 500 "Error analyzing PR.".
- Negative line numbers are accepted, because `int()` accepts a sign.
- The design implies that the model is asked for the `Issue: … | Line: … | Description: … | Suggestion: …` line format. The prompt at services.py:37 asks only for a review and names no format, and no system instruction is set (services.py:29). Only the parser expects that format. So free text that happens to contain `Issue:` can spoil the whole analysis, as `Routes.MalformedReplyCompletesEmpty` shows.

## Left out

- The Gemini client, the prompt text and the streamed reply are not modelled (services.py:10-30, 37-42). Each file's assembled reply text is an input, so a file's content plays no part in the model.
- Services.AnalyzeCode, Services.AnalyzePrTask, Services.Analysis: these require `|replies| == |files|`. The source has no such precondition; it comes from supplying one reply per file as an input.
- A failure of the model call itself is not modelled. In the source it is caught by the same handler and also gives None.
- PyStr.ParseInt: models `int()` after `strip()` as an optional sign followed by ASCII digits. Underscores between digits and non-ASCII digits, which Python also accepts, are not modelled. The limit on decimal digits of Python 3.11 and later (4300 by default, configurable) is not modelled either: there `int()` raises ValueError on a longer digit string, so such a `Line:` value makes the whole analysis None, and `str(n)` fails the same way, whereas the model accepts any length and PyStr.ParseShow holds for every integer.
- PyStr.ParseShow: holds for every integer, because the digit limit described on the PyStr.ParseInt line is not modelled.
- PyStr.Lower: lower-cases ASCII letters only; Python's full Unicode lower-casing is not modelled.
- Routes.FetchPrCode: models the listing and content requests by their status codes only. Connection errors and a listing body that is not the expected JSON are not modelled; in the source they also end in the 500.
- The upstream error message read from `response.json()` is not modelled. It is discarded by the 500 anyway.
- Celery dispatch, the retry countdown and limit, `AsyncResult` and the broker configuration are not modelled. The assigned task id, the task state, its info and the stored result are inputs.
- Rate limiting with slowapi and its 429 handler are not modelled.
- `main.py`, `test_redis.py` and all logging are not part of this model.
