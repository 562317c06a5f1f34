/** A complete session on a directory of three test cases, followed call by
    call through the session model: start, four dispatches, one graded
    report, and the summary. */
module Walkthrough {
  import opened Text
  import opened Names
  import opened LlmReply
  import opened Sessions

  /** The directory as `os.listdir` might list it: three test cases and
      their solutions, in no particular order. */
  const Listing: seq<string> :=
    ["c.sol", "a.sol.solution", "b.sol", "a.sol", "c.sol.solution", "b.sol.solution"]

  lemma ListingCaseNames()
    ensures CaseNames(Listing) == ["c.sol", "b.sol", "a.sol"]
  {
    var l := Listing;
    assert EndsWith(l[1], SolutionSuffix) && EndsWith(l[4], SolutionSuffix) && EndsWith(l[5], SolutionSuffix);
    assert !EndsWith(l[0], SolutionSuffix) && !EndsWith(l[2], SolutionSuffix) && !EndsWith(l[3], SolutionSuffix);
    assert CaseNames(l[..1]) == ["c.sol"];
    assert CaseNames(l[..2]) == ["c.sol"] by { assert l[..2][..1] == l[..1]; }
    assert CaseNames(l[..3]) == ["c.sol", "b.sol"] by { assert l[..3][..2] == l[..2]; }
    assert CaseNames(l[..4]) == ["c.sol", "b.sol", "a.sol"] by { assert l[..4][..3] == l[..3]; }
    assert CaseNames(l[..5]) == ["c.sol", "b.sol", "a.sol"] by { assert l[..5][..4] == l[..4]; }
    assert l[..5] == l[..|l| - 1];
  }

  lemma ThreeSorted()
    ensures Sorted(["a.sol", "b.sol", "c.sol"])
  {
    var t := ["a.sol", "b.sol", "c.sol"];
    assert Below(t[0], t[1]) && Below(t[1], t[2]) && Below(t[0], t[2]);
    forall i, j | 0 <= i < j < |t| ensures Below(t[i], t[j]) {
      assert (i, j) == (0, 1) || (i, j) == (0, 2) || (i, j) == (1, 2);
    }
  }

  /** The session's list: the three test cases in order, whatever the order
      of the listing. */
  lemma ListingCases()
    ensures SortedCases(Listing) == ["a.sol", "b.sol", "c.sol"]
  {
    ListingCaseNames();
    ThreeSorted();
    SortReversed(CaseNames(Listing), ["a.sol", "b.sol", "c.sol"]);
  }

  lemma SortReversed(c: seq<string>, t: seq<string>)
    requires Sorted(t) && |t| == 3 && c == [t[2], t[1], t[0]]
    ensures Sort(c) == t
  {
    assert t == [t[0], t[1], t[2]];
    assert multiset(t) == multiset{t[0], t[1], t[2]} == multiset(c);
    var r := Sort(c);
    assert Sorted(r) && multiset(r) == multiset(t);
    SortedUnique(t, r);
  }

  /** A word whose first character does not occur in `s` does not occur in `s`. */
  lemma Lacks(s: string, w: string)
    requires |w| > 0 && forall i | 0 <= i < |s| :: s[i] != w[0]
    ensures !Contains(s, w)
  {
    forall i | 0 <= i && i + |w| <= |s| ensures !OccursAt(s, w, i) {
      assert s[i..i + |w|][0] == s[i];
    }
  }

  /** A two-character word whose characters never stand next to each other
      in `s` does not occur in `s`. */
  lemma LacksPair(s: string, w: string)
    requires |w| == 2 && forall i | 0 <= i < |s| - 1 :: s[i] != w[0] || s[i + 1] != w[1]
    ensures !Contains(s, w)
  {
    forall i | 0 <= i && i + 2 <= |s| ensures !OccursAt(s, w, i) {
      assert s[i..i + 2] == [s[i], s[i + 1]];
    }
  }

  /** None of the traversal markers occurs in `b.sol`. */
  lemma PlainName()
    ensures !Contains("b.sol", "..") && !Contains("b.sol", "/") && !Contains("b.sol", "\\")
  {
    assert "b.sol" == ['b', '.', 's', 'o', 'l'];
    Lacks("b.sol", "/");
    Lacks("b.sol", "\\");
    LacksPair("b.sol", "..");
  }

  /** A judge reply of plain "yes" is a match. */
  lemma PlainYes(cfg: LlmConfig)
    requires Configured(cfg)
    ensures CheckVuln(cfg, Some("yes"))
  {
    assert !Contains("yes", ThinkEnd);
    assert AffirmsAt(Answer("yes"), 0);
    CheckVulnSpec(cfg, Some("yes"));
  }

  /** A session over `a.sol`, `b.sol`, `c.sol` with its cursor at the start
      serves the three cases in that order, and a fourth request finds the
      list used up. */
  lemma ThreeDispatches(s0: Session, dir: Directory, cfg: LlmConfig, rewrite: Rewriter)
    requires s0.testCases == ["a.sol", "b.sol", "c.sol"] && s0.currentIndex == 0
    requires "a.sol" in dir && "b.sol" in dir && "c.sol" in dir
    ensures var d := DispatchMany(s0, 4, dir, cfg, rewrite);
      && |d.0| == 4
      && d.0[0].Ok? && d.0[0].value.id == "a.sol"
      && d.0[1].Ok? && d.0[1].value.id == "b.sol"
      && d.0[2].Ok? && d.0[2].value.id == "c.sol"
      && d.0[3] == Err(Exhausted)
      && d.1 == s0.(currentIndex := 3)
  {
    var t := s0.testCases;
    DispatchTrace(s0, 4, dir, cfg, rewrite);
    var d := DispatchMany(s0, 4, dir, cfg, rewrite);
    assert d.0[0] == Serve(t[0], dir, cfg, rewrite);
    assert d.0[1] == Serve(t[1], dir, cfg, rewrite);
    assert d.0[2] == Serve(t[2], dir, cfg, rewrite);
  }

  /** A report on `b.sol` that the judge answers with "yes" is a match: on a
      session with no score yet, the summary becomes one correct answer out
      of three and no false positive. */
  lemma GradeMatch(s: Session, dir: Directory, cfg: LlmConfig, judge: Judge, report: string)
    requires s.testCases == ["a.sol", "b.sol", "c.sol"] && s.positive == 0 && s.falsePositive == 0
    requires "b.sol" in dir && "b.sol.solution" in dir
    requires Configured(cfg) && judge(report, dir["b.sol"], dir["b.sol.solution"]) == Some("yes")
    ensures var sub := Submit(s, "b.sol", report, dir, cfg, judge);
      sub.0 == Ok(()) && SummaryOf(sub.1) == Summary(1, 3, 0)
  {
    PlainName();
    assert Admissible("b.sol", s.testCases);
    assert "b.sol" + SolutionSuffix == "b.sol.solution";
    PlainYes(cfg);
    SubmitSpec(s, "b.sol", report, dir, cfg, judge);
  }

  /** User `u1` starts a session on the directory above: the cases come out
      as `a.sol`, `b.sol`, `c.sol`, then the list is used up; a report on
      `b.sol` judged a match is graded, and finishing reports one correct
      answer out of three and no false positive. */
  lemma ThreeCaseSession(dir: Directory, cfg: LlmConfig, rewrite: Rewriter, judge: Judge, report: string)
    requires "a.sol" in dir && "b.sol" in dir && "c.sol" in dir && "b.sol.solution" in dir
    requires Configured(cfg)
    requires judge(report, dir["b.sol"], dir["b.sol.solution"]) == Some("yes")
    ensures var d := DispatchMany(NewSession("u1", Listing), 4, dir, cfg, rewrite);
      var sub := Submit(d.1, "b.sol", report, dir, cfg, judge);
      && d.0[0].Ok? && d.0[0].value.id == "a.sol"
      && d.0[1].Ok? && d.0[1].value.id == "b.sol"
      && d.0[2].Ok? && d.0[2].value.id == "c.sol"
      && d.0[3] == Err(Exhausted)
      && sub.0 == Ok(())
      && SummaryOf(sub.1) == Summary(1, 3, 0)
  {
    var s0 := NewSession("u1", Listing);
    ListingCases();
    ThreeDispatches(s0, dir, cfg, rewrite);
    GradeMatch(s0.(currentIndex := 3), dir, cfg, judge, report);
  }
}
