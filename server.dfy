/** The server's state and its four request handlers. The registry owns the
    in-memory `sessions` dictionary and the results log; each handler updates
    them step by step as the Python handler does, and its postcondition ties
    the new state to the session model of module Sessions. */
module Server {
  import opened Names
  import opened LlmReply
  import opened Sessions

  class Registry {
    /** `sessions`: session id to session. */
    var sessions: map<string, Session>
    /** `results.txt`: one record per finished session, oldest first. */
    var log: seq<ResultRecord>

    ghost predicate Valid()
      reads this
    {
      forall id | id in sessions :: WellFormed(sessions[id])
    }

    constructor ()
      ensures Valid() && sessions == map[] && log == []
    {
      sessions := map[];
      log := [];
    }

    /** `start_benchmark`. `sessionId` is the fresh `uuid4()` and `listing`
        what `os.listdir` returned for the test-case directory. */
    method StartBenchmark(userId: string, sessionId: string, listing: seq<string>)
      requires Valid() && NoDup(listing)
      modifies this
      ensures Valid()
      ensures sessions == old(sessions)[sessionId := NewSession(userId, listing)]
      ensures log == old(log)
    {
      var testCases := CollectTestCases(listing);
      testCases := Sort(testCases);
      sessions := sessions[sessionId := Session(userId, testCases, 0, map[], 0, 0)];
      NewSessionValid(userId, listing);
    }

    /** `get_test_case`. */
    method GetTestCase(sessionId: string, dir: Directory, cfg: LlmConfig, rewrite: Rewriter)
      returns (r: Result<TestCase>)
      requires Valid()
      modifies this
      ensures Valid() && log == old(log)
      ensures sessionId !in old(sessions) ==> r == Err(SessionNotFound) && sessions == old(sessions)
      ensures sessionId in old(sessions) ==>
        var out := Dispatch(old(sessions)[sessionId], dir, cfg, rewrite);
        r == out.0 && sessions == old(sessions)[sessionId := out.1]
    {
      if sessionId !in sessions {
        return Err(SessionNotFound);
      }
      var session := sessions[sessionId];
      DispatchStep(session, dir, cfg, rewrite);
      var testCases := session.testCases;
      var currentIndex := session.currentIndex;
      if currentIndex >= |testCases| {
        return Err(Exhausted);
      }
      var testCase := testCases[currentIndex];
      sessions := sessions[sessionId := session.(currentIndex := currentIndex + 1)];
      if testCase !in dir {
        return Err(ReadFailed);
      }
      var content := dir[testCase];
      content := Obfuscate(cfg, content, rewrite(content));
      r := Ok(TestCase(content, testCase));
    }

    /** `send_vulns`: one report `vuln` for test case `testcaseId`. */
    method SendVulns(sessionId: string, testcaseId: string, vuln: string, dir: Directory, cfg: LlmConfig, judge: Judge)
      returns (r: Result<()>)
      requires Valid()
      modifies this
      ensures Valid() && log == old(log)
      ensures sessionId !in old(sessions) ==> r == Err(SessionNotFound) && sessions == old(sessions)
      ensures sessionId in old(sessions) ==>
        var out := Submit(old(sessions)[sessionId], testcaseId, vuln, dir, cfg, judge);
        r == out.0 && sessions == old(sessions)[sessionId := out.1]
    {
      if sessionId !in sessions {
        return Err(SessionNotFound);
      }
      var session := sessions[sessionId];
      ghost var spec := Submit(session, testcaseId, vuln, dir, cfg, judge);
      SubmitKeepsValid(session, testcaseId, vuln, dir, cfg, judge);
      if !Admissible(testcaseId, session.testCases) {
        assert spec == (Err(InvalidTestCase), session);
        return Err(InvalidTestCase);
      }
      var reports := if testcaseId in session.vulns then session.vulns[testcaseId] else [];
      session := session.(vulns := session.vulns[testcaseId := reports + [vuln]]);
      if testcaseId !in dir || testcaseId + SolutionSuffix !in dir {
        assert spec == (Err(ReadFailed), session);
        sessions := sessions[sessionId := session];
        return Err(ReadFailed);
      }
      var content := dir[testcaseId];
      var solution := dir[testcaseId + SolutionSuffix];
      var isCorrect := CheckVuln(cfg, judge(vuln, content, solution));
      if isCorrect {
        session := session.(positive := session.positive + 1);
      } else {
        session := session.(falsePositive := session.falsePositive + 1);
      }
      assert spec == (Ok(()), session);
      sessions := sessions[sessionId := session];
      r := Ok(());
    }

    /** `finish_benchmark`. `endTime` is `int(time.time())`. `reportOk` says
        whether `generate_html_report` returned normally: it handles only a
        missing or empty `results.txt`, so any other failure (a line it
        cannot parse, say) reaches the handler after the record was written,
        and the client gets an error instead of the summary. */
    method FinishBenchmark(sessionId: string, endTime: int, reportOk: bool) returns (r: Result<Summary>)
      requires Valid()
      modifies this
      ensures Valid() && sessions == old(sessions)
      ensures sessionId !in sessions ==> r == Err(SessionNotFound) && log == old(log)
      ensures sessionId in sessions ==>
        log == old(log) + [RecordOf(sessions[sessionId], endTime)]
        && r == (if reportOk then Ok(SummaryOf(sessions[sessionId])) else Err(ReportFailed))
    {
      if sessionId !in sessions {
        return Err(SessionNotFound);
      }
      var session := sessions[sessionId];
      log := log + [ResultRecord(endTime, session.userId, session.positive, session.falsePositive)];
      if !reportOk {
        return Err(ReportFailed);
      }
      r := Ok(Summary(session.positive, |session.testCases|, session.falsePositive));
    }
  }
}
