/** One benchmark session as a value, and what each handler of the server
    does to it: dispatching the next test case (`get_test_case`), grading a
    submitted finding (`send_vulns`) and summarising (`finish_benchmark`).
    The class in module Server applies these to its registry of sessions. */
module Sessions {
  import opened Text
  import opened Names
  import opened LlmReply

  datatype Error = SessionNotFound | Exhausted | InvalidTestCase | ReadFailed | ReportFailed

  datatype Result<T> = Ok(value: T) | Err(error: Error)

  /** The test-case directory: file name to file content. A name that is not
      here cannot be opened. */
  type Directory = map<string, string>

  /** The rewriter's raw reply to the prompt built from a piece of code. */
  type Rewriter = string -> Option<string>

  /** The judge's raw reply to the prompt built from (report, code, solution). */
  type Judge = (string, string, string) -> Option<string>

  /** The dictionary kept per session id. */
  datatype Session = Session(
    userId: string,
    testCases: seq<string>,
    currentIndex: nat,
    vulns: map<string, seq<string>>,
    positive: nat,
    falsePositive: nat)

  /** A dispatched test case: the (rewritten) code and its id, the file name. */
  datatype TestCase = TestCase(content: string, id: string)

  /** The body returned by `finish_benchmark`, without the elapsed time. */
  datatype Summary = Summary(correct: nat, total: nat, falsePositive: nat)

  /** One line of `results.txt`, without the elapsed time. */
  datatype ResultRecord = ResultRecord(endTime: int, userId: string, positive: nat, falsePositive: nat)

  /** What every session in the registry satisfies. */
  predicate WellFormed(s: Session) {
    && s.currentIndex <= |s.testCases|
    && Sorted(s.testCases) && NoDup(s.testCases)
    && (forall id | id in s.vulns :: id in s.testCases)
  }

  /** The session `start_benchmark` creates from a directory listing. */
  function NewSession(userId: string, listing: seq<string>): Session {
    Session(userId, SortedCases(listing), 0, map[], 0, 0)
  }

  /** A new session is valid: its list is sorted and, because a directory
      listing names every entry once, free of repetitions. */
  lemma NewSessionValid(userId: string, listing: seq<string>)
    requires NoDup(listing)
    ensures WellFormed(NewSession(userId, listing))
    ensures |NewSession(userId, listing).testCases| == |CaseNames(listing)|
  {
    SortedCasesSpec(listing);
    var t := SortedCases(listing);
    assert |t| == |multiset(t)| == |multiset(CaseNames(listing))| == |CaseNames(listing)|;
  }

  /** The ids dispatched so far, in dispatch order. */
  function Dispatched(s: Session): seq<string>
    requires s.currentIndex <= |s.testCases|
  {
    s.testCases[..s.currentIndex]
  }

  /** Reading test case `id` and passing its code through the rewriter. */
  function Serve(id: string, dir: Directory, cfg: LlmConfig, rewrite: Rewriter): (r: Result<TestCase>)
    ensures r.Ok? <==> id in dir
    ensures r.Err? ==> r.error == ReadFailed
    ensures r.Ok? ==> r.value.id == id
    ensures r.Ok? ==> r.value.content == Obfuscate(cfg, dir[id], rewrite(dir[id]))
  {
    if id !in dir then Err(ReadFailed)
    else
      var code := dir[id];
      Ok(TestCase(Obfuscate(cfg, code, rewrite(code)), id))
  }

  /** `get_test_case` on an existing session. The cursor moves before the
      file is read, so a read failure still uses up the slot. */
  function Dispatch(s: Session, dir: Directory, cfg: LlmConfig, rewrite: Rewriter): (out: (Result<TestCase>, Session))
    ensures out.0 == Err(Exhausted) <==> s.currentIndex >= |s.testCases|
    ensures out.0 == Err(Exhausted) ==> out.1 == s
    ensures out.0 != Err(Exhausted) ==>
      && out.1 == s.(currentIndex := s.currentIndex + 1)
      && out.0 == Serve(s.testCases[s.currentIndex], dir, cfg, rewrite)
  {
    if s.currentIndex >= |s.testCases| then (Err(Exhausted), s)
    else
      var id := s.testCases[s.currentIndex];
      (Serve(id, dir, cfg, rewrite), s.(currentIndex := s.currentIndex + 1))
  }

  /** A dispatch keeps the session valid, moves the cursor by one (or not at
      all, when exhausted), and never hands out an id handed out before. */
  lemma DispatchStep(s: Session, dir: Directory, cfg: LlmConfig, rewrite: Rewriter)
    requires WellFormed(s)
    ensures var out := Dispatch(s, dir, cfg, rewrite);
      && WellFormed(out.1)
      && s.currentIndex <= out.1.currentIndex <= s.currentIndex + 1
      && (out.0 != Err(Exhausted) ==>
            Dispatched(out.1) == Dispatched(s) + [s.testCases[s.currentIndex]]
            && s.testCases[s.currentIndex] !in Dispatched(s))
      && (out.0.Ok? ==> out.0.value.id !in Dispatched(s))
  {
    var out := Dispatch(s, dir, cfg, rewrite);
    if out.0 != Err(Exhausted) {
      var i := s.currentIndex;
      assert s.testCases[..i + 1] == s.testCases[..i] + [s.testCases[i]];
      assert forall j | 0 <= j < i :: Dispatched(s)[j] != s.testCases[i];
    }
  }

  /** `k` consecutive calls of `get_test_case` on one session. */
  function DispatchMany(s: Session, k: nat, dir: Directory, cfg: LlmConfig, rewrite: Rewriter)
    : (out: (seq<Result<TestCase>>, Session))
    decreases k
  {
    if k == 0 then ([], s)
    else
      var first := Dispatch(s, dir, cfg, rewrite);
      var rest := DispatchMany(first.1, k - 1, dir, cfg, rewrite);
      ([first.0] + rest.0, rest.1)
  }

  function Min(a: int, b: int): int {
    if a <= b then a else b
  }

  /** Dispatch is an in-order walk over the session's list: call number `j`
      serves the entry after the `j` before it, and once the list is used up
      every later call reports exhaustion, however many calls follow. */
  lemma {:induction false} DispatchTrace(s: Session, k: nat, dir: Directory, cfg: LlmConfig, rewrite: Rewriter)
    requires s.currentIndex <= |s.testCases|
    ensures var out := DispatchMany(s, k, dir, cfg, rewrite);
      && |out.0| == k
      && out.1 == s.(currentIndex := Min(s.currentIndex + k, |s.testCases|))
      && forall j | 0 <= j < k ::
           out.0[j] == if s.currentIndex + j < |s.testCases|
                       then Serve(s.testCases[s.currentIndex + j], dir, cfg, rewrite)
                       else Err(Exhausted)
    decreases k
  {
    if k > 0 {
      var first := Dispatch(s, dir, cfg, rewrite);
      DispatchTrace(first.1, k - 1, dir, cfg, rewrite);
      var rest := DispatchMany(first.1, k - 1, dir, cfg, rewrite);
      var out := DispatchMany(s, k, dir, cfg, rewrite);
      assert out.0 == [first.0] + rest.0 && out.1 == rest.1;
      forall j | 0 <= j < k
        ensures out.0[j] == if s.currentIndex + j < |s.testCases|
                            then Serve(s.testCases[s.currentIndex + j], dir, cfg, rewrite)
                            else Err(Exhausted)
      {
        if j == 0 {
          assert out.0[0] == first.0;
        } else {
          assert out.0[j] == rest.0[j - 1];
          if s.currentIndex < |s.testCases| {
            assert first.1.currentIndex + (j - 1) == s.currentIndex + j;
          }
        }
      }
    }
  }

  /** Within any run of dispatches no id is served twice. */
  lemma DispatchNoRepeat(s: Session, k: nat, dir: Directory, cfg: LlmConfig, rewrite: Rewriter)
    requires WellFormed(s)
    ensures var rs := DispatchMany(s, k, dir, cfg, rewrite).0;
      forall j1, j2 | 0 <= j1 < j2 < |rs| && rs[j1].Ok? && rs[j2].Ok? :: rs[j1].value.id != rs[j2].value.id
  {
    DispatchTrace(s, k, dir, cfg, rewrite);
  }

  /** `send_vulns`' guard: no `..`, `/` or `\` in the id, and the id is one
      of the session's test cases. */
  predicate Admissible(id: string, testCases: seq<string>) {
    !Contains(id, "..") && !Contains(id, "/") && !Contains(id, "\\") && id in testCases
  }

  /** The reports kept for one test case; none before the first. */
  function Reports(s: Session, id: string): seq<string> {
    if id in s.vulns then s.vulns[id] else []
  }

  /** `send_vulns` on an existing session: check the id, keep the report,
      read code and solution, ask the judge, and count the verdict. */
  function Submit(s: Session, id: string, report: string, dir: Directory, cfg: LlmConfig, judge: Judge)
    : (Result<()>, Session)
  {
    if !Admissible(id, s.testCases) then (Err(InvalidTestCase), s)
    else
      var kept := s.(vulns := s.vulns[id := Reports(s, id) + [report]]);
      if id !in dir || id + SolutionSuffix !in dir then (Err(ReadFailed), kept)
      else if CheckVuln(cfg, judge(report, dir[id], dir[id + SolutionSuffix])) then
        (Ok(()), kept.(positive := kept.positive + 1))
      else
        (Ok(()), kept.(falsePositive := kept.falsePositive + 1))
  }

  /** What one `send_vulns` call does: the guard turns away exactly the
      inadmissible ids and changes nothing then; any admissible report is kept
      even when reading the files fails; the id list and the cursor never
      change; and a graded report moves exactly one counter, chosen by the
      judge's verdict. */
  lemma SubmitSpec(s: Session, id: string, report: string, dir: Directory, cfg: LlmConfig, judge: Judge)
    ensures var out := Submit(s, id, report, dir, cfg, judge);
      && (out.0 == Err(InvalidTestCase) <==> !Admissible(id, s.testCases))
      && (out.0 == Err(InvalidTestCase) ==> out.1 == s)
      && (out.0 != Err(InvalidTestCase) ==> out.1.vulns == s.vulns[id := Reports(s, id) + [report]])
      && out.1.userId == s.userId && out.1.testCases == s.testCases && out.1.currentIndex == s.currentIndex
      && (out.0.Ok? <==> Admissible(id, s.testCases) && id in dir && id + SolutionSuffix in dir)
      && (out.0.Err? ==> out.0.error in {InvalidTestCase, ReadFailed})
      && (out.0.Err? ==> out.1.positive == s.positive && out.1.falsePositive == s.falsePositive)
      && (out.0.Ok? ==>
            if CheckVuln(cfg, judge(report, dir[id], dir[id + SolutionSuffix]))
            then out.1.positive == s.positive + 1 && out.1.falsePositive == s.falsePositive
            else out.1.positive == s.positive && out.1.falsePositive == s.falsePositive + 1)
  {
  }

  lemma SubmitKeepsValid(s: Session, id: string, report: string, dir: Directory, cfg: LlmConfig, judge: Judge)
    requires WellFormed(s)
    ensures WellFormed(Submit(s, id, report, dir, cfg, judge).1)
  {
  }

  /** The guard checks membership, not dispatch: a report for a test case the
      session has not been served yet is accepted and graded. */
  lemma UndispatchedIsGraded(s: Session, k: nat, report: string, dir: Directory, cfg: LlmConfig, judge: Judge)
    requires WellFormed(s) && s.currentIndex <= k < |s.testCases|
    requires var id := s.testCases[k];
      !Contains(id, "..") && !Contains(id, "/") && !Contains(id, "\\") && id in dir && id + SolutionSuffix in dir
    ensures s.testCases[k] !in Dispatched(s)
    ensures Submit(s, s.testCases[k], report, dir, cfg, judge).0.Ok?
  {
    assert forall j | 0 <= j < s.currentIndex :: Dispatched(s)[j] != s.testCases[k];
  }

  /** A test case whose file name contains `..` is dispatched like any other,
      but every report for it is turned away. */
  lemma DottedNameNeverGraded(s: Session, id: string, report: string, dir: Directory, cfg: LlmConfig, judge: Judge)
    requires id in s.testCases && Contains(id, "..")
    ensures Submit(s, id, report, dir, cfg, judge) == (Err(InvalidTestCase), s)
  {
  }

  /** A report for one test case, as the client sends it. */
  datatype Submission = Submission(id: string, report: string)

  /** Successive calls of `send_vulns` on one session. */
  function SubmitMany(s: Session, subs: seq<Submission>, dir: Directory, cfg: LlmConfig, judge: Judge)
    : (out: (seq<Result<()>>, Session))
    decreases |subs|
  {
    if subs == [] then ([], s)
    else
      var first := Submit(s, subs[0].id, subs[0].report, dir, cfg, judge);
      var rest := SubmitMany(first.1, subs[1..], dir, cfg, judge);
      ([first.0] + rest.0, rest.1)
  }

  /** How many calls were graded. */
  function CountOk<T>(rs: seq<Result<T>>): nat {
    if rs == [] then 0 else (if rs[0].Ok? then 1 else 0) + CountOk(rs[1..])
  }

  /** Counter conservation: over any run of submissions the two counters
      together grow by the number of graded submissions, and the list and the
      cursor stay as they were. */
  lemma {:induction false} SubmitConservation(s: Session, subs: seq<Submission>, dir: Directory, cfg: LlmConfig, judge: Judge)
    ensures var out := SubmitMany(s, subs, dir, cfg, judge);
      && |out.0| == |subs|
      && out.1.positive + out.1.falsePositive == s.positive + s.falsePositive + CountOk(out.0)
      && out.1.positive >= s.positive && out.1.falsePositive >= s.falsePositive
      && out.1.testCases == s.testCases && out.1.currentIndex == s.currentIndex && out.1.userId == s.userId
    decreases |subs|
  {
    if subs != [] {
      var first := Submit(s, subs[0].id, subs[0].report, dir, cfg, judge);
      SubmitConservation(first.1, subs[1..], dir, cfg, judge);
      var out := SubmitMany(s, subs, dir, cfg, judge);
      assert out.0[1..] == SubmitMany(first.1, subs[1..], dir, cfg, judge).0;
    }
  }

  /** With the judge unconfigured or always failing, every graded submission
      counts as a false positive and none as a match. */
  lemma {:induction false} FailingJudgeNeverMatches(s: Session, subs: seq<Submission>, dir: Directory, cfg: LlmConfig, judge: Judge)
    requires !Configured(cfg) || forall a, b, c :: judge(a, b, c).None?
    ensures var out := SubmitMany(s, subs, dir, cfg, judge);
      out.1.positive == s.positive && out.1.falsePositive == s.falsePositive + CountOk(out.0)
    decreases |subs|
  {
    if subs != [] {
      var first := Submit(s, subs[0].id, subs[0].report, dir, cfg, judge);
      FailingJudgeNeverMatches(first.1, subs[1..], dir, cfg, judge);
      var out := SubmitMany(s, subs, dir, cfg, judge);
      assert out.0[1..] == SubmitMany(first.1, subs[1..], dir, cfg, judge).0;
    }
  }

  /** Re-submitting for the same test case appends again and is graded again. */
  lemma ResubmissionGradedAgain(s: Session, id: string, r1: string, r2: string, dir: Directory, cfg: LlmConfig, judge: Judge)
    requires Admissible(id, s.testCases) && id in dir && id + SolutionSuffix in dir
    ensures var first := Submit(s, id, r1, dir, cfg, judge);
      var second := Submit(first.1, id, r2, dir, cfg, judge);
      && first.0.Ok? && second.0.Ok?
      && Reports(second.1, id) == Reports(s, id) + [r1, r2]
      && second.1.positive + second.1.falsePositive == s.positive + s.falsePositive + 2
  {
    var first := Submit(s, id, r1, dir, cfg, judge);
    SubmitSpec(s, id, r1, dir, cfg, judge);
    SubmitSpec(first.1, id, r2, dir, cfg, judge);
    assert Reports(first.1, id) == Reports(s, id) + [r1];
  }

  /** What `finish_benchmark` reports. */
  function SummaryOf(s: Session): Summary {
    Summary(s.positive, |s.testCases|, s.falsePositive)
  }

  /** The line `finish_benchmark` appends to the results log. */
  function RecordOf(s: Session, endTime: int): ResultRecord {
    ResultRecord(endTime, s.userId, s.positive, s.falsePositive)
  }

  /** A whole session — start, `k` dispatches, a run of submissions — ends
      with a summary whose total is the number of test-case files in the
      directory, however many were dispatched, and whose two counts add up to
      the number of graded submissions. */
  lemma SummaryAfterSession(userId: string, listing: seq<string>, k: nat, subs: seq<Submission>,
                            dir: Directory, cfg: LlmConfig, rewrite: Rewriter, judge: Judge)
    ensures var s0 := NewSession(userId, listing);
      var s1 := DispatchMany(s0, k, dir, cfg, rewrite).1;
      var out := SubmitMany(s1, subs, dir, cfg, judge);
      && SummaryOf(out.1).total == |CaseNames(listing)|
      && SummaryOf(out.1).correct + SummaryOf(out.1).falsePositive == CountOk(out.0)
  {
    var s0 := NewSession(userId, listing);
    var c := CaseNames(listing);
    assert |s0.testCases| == |multiset(s0.testCases)| == |multiset(c)| == |c|;
    DispatchTrace(s0, k, dir, cfg, rewrite);
    var s1 := DispatchMany(s0, k, dir, cfg, rewrite).1;
    SubmitConservation(s1, subs, dir, cfg, judge);
  }
}
