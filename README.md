# simpleVulnBenchmark session manager in Dafny

simpleVulnBenchmark is a small FastAPI server that benchmarks vulnerability
finders. A client starts a session and the server gives it the test cases of a
directory one at a time. Each case is first passed through a code-rewriting
language model. The client sends back a finding for a case, and a second
call to the same language model judges it against the case's `.solution` file. When the client
finishes, it gets back a score, and one line is written to a results log.

This project models that session manager from `src/server.py`, together with
the two pieces of text processing the server applies to model replies:

- the verdict parser of `check_vuln_with_llm`;
- the reasoning and Markdown-fence cleaner of `obfuscate_code_with_llm`.

Modules, in dependency order:

- `Text`: Python's `str.strip`, `str.lower` (ASCII), `find`/`in`,
  `startswith`/`endswith` and `split(sep, 1)[1]`. It proves the facts the parsers
  need, such as "strip only removes whitespace at the ends".
- `LlmReply`: the service configuration with its fallbacks, and the two reply
  post-processors. The verdict parser is proved equal to an independent
  reading of the raw reply ("yes" in some letter case after the first
  `</think>`). The code cleaner is pinned down by stating how it drops the
  reasoning section, and which result it gives for clean replies and for
  fenced code, with or without a reasoning section before it.
- `Names`: Python's string order, `list.sort` (modelled as insertion sort), and
  the loop that filters out `.solution` files. It proves that the session list
  is the only sorted arrangement of the non-solution files.
- `Sessions`: one session as a value, and what each handler does to it, as
  functions:
  - `Dispatch` for `get_test_case`;
  - `Submit` for `send_vulns`;
  - `SummaryOf` and `RecordOf` for `finish_benchmark`.

  It also proves lemmas over runs of calls: in-order dispatch without repeats,
  counter conservation, and the effect of the input guard.
- `Server`: class `Registry`. Its fields are the in-memory `sessions`
  dictionary and the `results.txt` log. Its four methods update those fields
  the way the handlers do, and each postcondition ties the new state to the
  `Sessions` functions.
- `Walkthrough`: a three-case session worked through call by call.

External effects are modelled as inputs:

- **Directory.** The test-case directory is a `map` from file name to
  content. The listing that `os.listdir` returns is a sequence.
- **Language model.** Both uses of the one endpoint (`LLM_URL`, `API_KEY`,
  model `gpt-4o-mini`, different prompts) are modelled as separate function
  parameters. Each one returns
  `Some(reply)` or `None`. `None` stands for a failed request, a failed HTTP
  status or unparseable JSON.
- **Configuration.** `--url` and `--api-key` form an `LlmConfig`.
- **Session id and clock.** The fresh `uuid4()` and `int(time.time())` are
  method parameters.

Where the code differs from what a reader might expect, the model follows
the code:

- `send_vulns` checks only that the id is in the session's list, not that the
  case was already dispatched (`UndispatchedIsGraded`).
- The `total` returned by `finish_benchmark` is the length of the whole list,
  however many cases were dispatched (`SummaryAfterSession`).
- The comment at `src/server.py:30` about repeating each case three times does
  not match the code, which appends each name once. The model appends once.
- `send_vulns` appends the report before it reads the files. A missing file
  therefore leaves the report stored but ungraded (`SubmitSpec`).

## Model

| member | source | states |
|---|---|---|
| Text.TrimStartSplit | src/server.py:104 | left-stripping only removes a prefix made entirely of whitespace; the text splits as that prefix followed by the result |
| Text.TrimEndSplit | src/server.py:104 | right-stripping only removes a suffix made entirely of whitespace; the text splits as the result followed by that suffix |
| Text.IsSpace | src/server.py:104 | the characters `strip()` removes, Python's `str.isspace()`; what stripping removes and keeps in terms of it is stated by `StripSplit` and `StripUnique` |
| Text.TrimStart | src/server.py:104 | the left half of `strip()`: the result is no longer than the text and does not begin with whitespace; with `TrimStartSplit` it is exactly the text after the maximal whitespace prefix |
| Text.TrimEnd | src/server.py:104 | the right half of `strip()`: the result is no longer than the text and does not end with whitespace; with `TrimEndSplit` it is exactly the text before the maximal whitespace suffix |
| Text.Strip | src/server.py:104 | the result of `strip()` neither begins nor ends with whitespace |
| Text.StripSplit | src/server.py:104 | every text is whitespace, then its stripped form, then whitespace |
| Text.StripStripped | src/server.py:106 | stripping text that is already stripped changes nothing |
| Text.StripUnique | src/server.py:104 | `strip()` is determined: any stripped text between two runs of whitespace is exactly what `strip()` returns |
| Text.StripInfix | src/server.py:104 | the stripped text is a contiguous piece of the original |
| Text.Contains | src/server.py:105 | `w in s` holds exactly when `find` locates `w`, so by `IndexOf`'s contract exactly when `w` occurs somewhere in `s` |
| Text.StartsWith | src/server.py:159 | `s.startswith(p)`: `p` occurs in `s` at index 0 |
| Text.EndsWith | src/server.py:159 | `s.endswith(p)`: `p` occurs in `s` at index `len(s) - len(p)` |
| Text.IndexOf | src/server.py:160 | `find` returns -1 exactly when the word does not occur; otherwise it returns the first position where the word occurs |
| Text.AfterFirst | src/server.py:106 | `split(sep, 1)[1]` is a suffix of the text, with the separator standing right before it |
| Text.AfterFirstSpec | src/server.py:106 | the separator `split(sep, 1)` cuts at is its first occurrence: the result starts right after it and `sep` occurs nowhere earlier |
| Text.Lower | src/server.py:107 | lowercasing keeps the length and lowercases each character in place |
| Text.LowerChar | src/server.py:107 | `lower()` on one character (ASCII letters only); stated through `Lower`'s contract and `LowerContainsYes` |
| Text.AfterFirstPadded | src/server.py:104-106 | surrounding whitespace changes neither whether a non-space separator occurs nor what follows its first occurrence, apart from trailing whitespace |
| LlmReply.AfterReasoning | src/server.py:104-106 | the answer left after dropping the `</think>` section is stripped |
| LlmReply.AfterReasoningSpec | src/server.py:104-106 | dropping the reasoning section gives the stripped text after the first `</think>` of the raw reply, or the whole stripped reply when there is none; stripping first changes nothing |
| LlmReply.AfterReasoningInfix | src/server.py:155-157 | dropping the reasoning section leaves a contiguous piece of the reply |
| LlmReply.LowerContainsYes | src/server.py:107-109 | `"yes" in text.lower()` holds exactly when "yes" occurs in the text in some letter case |
| LlmReply.ParseVerdict | src/server.py:104-109 | the verdict rule applied to a reply; its meaning is stated by `VerdictSpec` |
| LlmReply.VerdictSpec | src/server.py:104-109 | the parsed verdict is a match exactly when the raw reply, after its first `</think>` (or the whole reply when there is none), holds "yes" in some letter case; stripping changes nothing |
| LlmReply.Configured | src/server.py:66 | `LLM_URL and API_KEY` are truthy: both set and not empty; the fallbacks that depend on it are stated by `CheckVulnSpec` and `Obfuscate` |
| LlmReply.CheckVuln | src/server.py:66-112 | `check_vuln_with_llm` after the request; its meaning is stated by `CheckVulnSpec` |
| LlmReply.CheckVulnSpec | src/server.py:66-112 | a report is a match exactly when the service is configured, the request succeeded, and the answer says "yes"; every other case is a non-match |
| LlmReply.NewlineBeforeFence | src/server.py:160 | in a text ending with a fence, the first newline (if any) comes before the closing fence |
| LlmReply.FenceBodyStart | src/server.py:160 | the body of a fenced block starts no later than the closing fence |
| LlmReply.CleanCode | src/server.py:155-160 | the rewriter's cleaned reply is stripped; what it is for a given reply is stated by the lemmas below and `AfterReasoningSpec` |
| LlmReply.CleanCodeIsInfix | src/server.py:155-160 | cleaning only cuts the reply: the result is a contiguous piece of it |
| LlmReply.CleanCodeUnfences | src/server.py:158-160 | a stripped code block in a fence with an info string comes back exactly as the code |
| LlmReply.CleanCodeUnfencesBlock | src/server.py:158-160 | any fenced block with an info string on its first line comes back as its body, stripped, whether or not a newline precedes the closing fence |
| LlmReply.CleanCodeOneLine | src/server.py:158-160 | a fenced reply on a single line keeps its opening fence: with no newline `find` gives -1, so only the closing fence and trailing whitespace are cut |
| LlmReply.CleanCodeDropsReasoning | src/server.py:155-160 | a reply made of reasoning (with no `</think>` inside it), `</think>`, then stripped code in a fence with an info string, comes back exactly as the code |
| LlmReply.CleanCodeKeepsCleanText | src/server.py:155-160 | a stripped reply with no reasoning section and no fence is returned unchanged |
| LlmReply.Obfuscate | src/server.py:119-165 | without configuration or after a failed request the original code is returned; otherwise the result is the cleaned reply, which is stripped and a contiguous piece of the reply |
| Names.BelowTotal | src/server.py:32 | Python's string order relates every pair of names |
| Names.BelowAntisymmetric | src/server.py:32 | two names each at most the other are equal |
| Names.BelowTransitive | src/server.py:32 | the string order is transitive |
| Names.Below | src/server.py:32 | Python's `<=` on `str`, the order `sort()` uses; a total order by `BelowTotal`, `BelowAntisymmetric` and `BelowTransitive` |
| Names.Insert | src/server.py:32 | inserting into a sorted list gives a sorted list holding one more copy of the element |
| Names.Sort | src/server.py:32 | `sort()` gives a sorted permutation of its input |
| Names.SortedUnique | src/server.py:32 | two sorted lists with the same elements are equal, so the sort result is determined |
| Names.CollectTestCases | src/server.py:27-31 | the loop collects exactly the listing's non-`.solution` names, in listing order |
| Names.CaseNamesCount | src/server.py:28-31 | a name is kept as many times as the listing holds it, and never when it ends in `.solution` |
| Names.CaseNamesNoDup | src/server.py:28-31 | a listing without repeats yields test cases without repeats |
| Names.CaseNames | src/server.py:27-31 | the non-`.solution` entries in listing order; stated by `CaseNamesCount`, `CaseNamesNoDup` and `SortedCasesSpec`, and computed by the loop of `CollectTestCases` |
| Names.SortedCasesSpec | src/server.py:27-32 | the session list is sorted, holds exactly the non-`.solution` names, has no repeats when the listing has none, and is the only sorted arrangement of those names |
| Names.SortedCases | src/server.py:27-32 | the list `start_benchmark` builds: filtered, then sorted; stated by `SortedCasesSpec` |
| Names.ListingOrderIrrelevant | src/server.py:28-32 | the order in which the directory lists its files does not change the session list |
| Sessions.NewSession | src/server.py:33-41 | the session `start_benchmark` stores; stated by `NewSessionValid` and `SortedCasesSpec` |
| Sessions.NewSessionValid | src/server.py:26-41 | a new session is well formed (sorted, no repeats, cursor in range) and holds one entry per test-case file |
| Sessions.Serve | src/server.py:55-63 | serving a case succeeds exactly when its file exists, returns the case's own id with the file's content passed through the rewriter (the content itself when the rewriter is unconfigured or fails), and fails only with a read error |
| Sessions.Dispatch | src/server.py:49-63 | dispatch reports exhaustion exactly when the cursor is at the end, leaving the session unchanged; otherwise it serves the entry at the cursor and moves the cursor by one, even when the read fails |
| Sessions.DispatchStep | src/server.py:49-54 | a dispatch keeps the session well formed and moves the cursor by at most one; a served id extends the dispatched prefix and was not handed out before |
| Sessions.DispatchTrace | src/server.py:49-54 | k consecutive dispatches serve the list in order from the cursor; once the list is used up, every later call is exhausted; the cursor ends at min(cursor + k, length) |
| Sessions.DispatchNoRepeat | src/server.py:53-54 | within any run of dispatches no id is served twice |
| Sessions.Submit | src/server.py:172-204 | `send_vulns` on an existing session; its meaning is stated by `SubmitSpec` |
| Sessions.SubmitSpec | src/server.py:175-202 | traversal markers or an unknown id give InvalidTestCase and change nothing; an admissible report is appended even when a file is missing; grading succeeds exactly when both files exist; a graded report moves exactly one counter by one, as the judge decides; list, cursor and user never change |
| Sessions.Admissible | src/server.py:176-177 | the `send_vulns` guard: no `..`, `/` or `\` in the id, and the id is in the session's list; its effect is stated by `SubmitSpec`, `DottedNameNeverGraded` and `UndispatchedIsGraded` |
| Sessions.SubmitKeepsValid | src/server.py:179-183 | a submission keeps the session well formed: reports are only kept under ids from the session's list |
| Sessions.UndispatchedIsGraded | src/server.py:176-178 | a report for a case not yet dispatched is accepted and graded |
| Sessions.DottedNameNeverGraded | src/server.py:176-178 | a test case whose name contains `..` can be dispatched, but every report for it is rejected and leaves the session unchanged |
| Sessions.SubmitConservation | src/server.py:196-202 | over any run of submissions, positive plus false positive grows by exactly the number of graded ones; neither counter decreases; list and cursor are kept |
| Sessions.FailingJudgeNeverMatches | src/server.py:66-68 | with the judge unconfigured or always failing, every graded report counts as a false positive |
| Sessions.ResubmissionGradedAgain | src/server.py:179-202 | a second report for the same case is appended after the first and graded again |
| Sessions.SummaryAfterSession | src/server.py:221-226 | after any session, total is the number of test-case files, however many were dispatched, and correct plus false positive is the number of graded reports |
| Server.Registry.constructor | src/server.py:21-22 | the registry starts with no sessions and an empty log |
| Server.Registry.StartBenchmark | src/server.py:26-42 | the new id maps to the session built from the listing; other sessions and the log are unchanged; every session stays well formed |
| Server.Registry.GetTestCase | src/server.py:46-63 | an unknown id gives SessionNotFound and changes nothing; otherwise the result and the session's new state are those of one dispatch |
| Server.Registry.SendVulns | src/server.py:172-204 | an unknown id gives SessionNotFound and changes nothing; otherwise the result and the session's new state are those of one submission; the log is unchanged |
| Sessions.SummaryOf | src/server.py:221-226 | the body `finish_benchmark` returns; stated by `SummaryAfterSession` and `FinishBenchmark` |
| Sessions.RecordOf | src/server.py:212-217 | the record `finish_benchmark` appends to `results.txt`; stated by `FinishBenchmark` |
| Server.Registry.FinishBenchmark | src/server.py:208-226 | an unknown id gives SessionNotFound and changes nothing; otherwise exactly one record is appended to the log, and the result is the summary (positive, number of cases, false positive), or ReportFailed when the report step raises, with the record already written; sessions are unchanged |
| Walkthrough.ListingCases | src/server.py:27-32 | a shuffled listing of three cases and their solutions gives the list `a.sol`, `b.sol`, `c.sol` |
| Walkthrough.SortReversed | src/server.py:32 | sorting three names given in reverse of their sorted order gives them in sorted order |
| Walkthrough.PlainName | src/server.py:176 | `b.sol` holds none of the traversal markers |
| Walkthrough.PlainYes | src/server.py:104-109 | a configured judge answering "yes" gives a match |
| Walkthrough.ThreeDispatches | src/server.py:49-54 | on that list, four dispatches serve `a.sol`, `b.sol`, `c.sol` and then report exhaustion |
| Walkthrough.GradeMatch | src/server.py:172-202 | a report on `b.sol` judged "yes" is graded, and the summary becomes 1 correct out of 3 with no false positive |
| Walkthrough.ThreeCaseSession | src/server.py:24-226 | the whole scenario from start to summary, for user `u1` |

## Left out

- Elapsed time: `start_time` and `time_taken` are floats read from the clock, so the session and the summary do not carry them. The log record keeps only `int(end_time)`, which is a parameter.
- `uuid.uuid4()`: the session id is a parameter. A repeated id overwrites the old session, as the dictionary assignment does, so no freshness is required.
- Server.Registry.StartBenchmark: requires the listing to hold no name twice, which a directory listing guarantees.
- `results.txt` is kept as a sequence of records (end time, user, positive, false positive). The comma-separated formatting and the file append are not modelled.
- `generate_html_report` (`src/reporter.py`): report rendering is not part of this model. Whether it returns normally is the parameter `reportOk` of `Server.Registry.FinishBenchmark`; it catches only a missing or empty `results.txt`, and any other exception (for example a line with more fields than the five column names, which a user id holding a comma produces) reaches the handler after the record was appended, so the client gets an error (ReportFailed) instead of the summary.
- HTTP: FastAPI routing, status codes and uvicorn startup. The HTTP errors and the exhaustion signal become the `Error` values SessionNotFound, Exhausted, InvalidTestCase, ReadFailed and ReportFailed.
- The language-model requests themselves: prompt text, headers, model name, temperature and the random seed. Each service is a function parameter returning the reply content or `None`.
- Text.Lower / Text.LowerChar: lowercases ASCII letters only, where Python's `str.lower` also folds other letters (and turns `İ` into two characters). The verdict is unaffected: no other character lowers to `y`, `e` or `s`, so "yes" occurs in Python's lowercased answer exactly when it occurs in the model's.
- Server.Registry.GetTestCase: every failure to read a file becomes ReadFailed, which the model raises exactly when the name is missing from the directory. Permission or encoding errors are not distinguished.
- Server.Registry.SendVulns: the same applies. Only a missing test-case or solution file is modelled, and it becomes ReadFailed.
- The `"vulns" not in session` branch of `send_vulns` cannot be reached, because every session is created with `vulns`. The model always holds the dictionary.
- Server.Registry.SendVulns: the handler mutates the session dictionary in place as it goes. The method computes the new session and stores it once, before returning. The final state is the same: in the sequential setting modelled here no other request runs in between. Interleaved requests are left out (see Concurrency).
- Concurrency: the server has no locking. `send_vulns` is a plain handler that FastAPI runs in a thread pool, and the judge call may block for up to 600 seconds, so another request on the same session can run meanwhile. Interleaved requests are not modelled.
- Sessions.DispatchMany, Sessions.SubmitMany: each run of calls takes one rewriter and one judge function for all its calls, so identical requests get identical replies there. The service samples at temperature 0.8, and the rewriter uses a fresh random seed per request. No conclusion of the run lemmas depends on the replies. The `Registry` methods take a fresh oracle on every call.
- The `print` calls and the console output they produce.
