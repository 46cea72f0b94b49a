/**
 * Concrete runs of the loop, worked out against the model.
 */
module Scenarios {

  import opened Wrappers
  import opened Text
  import opened Git
  import opened Branches
  import opened Messages
  import opened Disposition

  const FeatureX := Branch("feature-x", "2 days ago")
  const OldStuff := Branch("old-stuff", "3 weeks ago")

  /** A git that removes every branch it is asked to. */
  function Willing(c: Command): ProcessOutput {
    ProcessOutput(true, "Deleted branch " + c.branch, "")
  }

  /** A git that refuses the safe delete of an unmerged branch but obeys `-D`. */
  function Unmerged(c: Command): ProcessOutput {
    if c.SafeDelete? then
      ProcessOutput(false, "", "error: not fully merged\nhint: use -D")
    else ProcessOutput(true, "Deleted branch " + c.branch, "")
  }

  lemma AnswersYesNo()
    ensures Answers(["y", "n"]) == [Yes, Other]
  {
    assert Trim("y") == "y";
    assert Trim("n") == "n";
  }

  /** `y` for the first branch and `n` for the second: one deletion, one skip. */
  lemma DeleteThenSkip()
    ensures var s := Run([FeatureX, OldStuff], Answers(["y", "n"]), Willing);
            && s.stoppedAt == 2
            && s.tally.deleted == 1 && s.tally.skipped == 1
            && s.tally.commands == [SafeDelete("feature-x")]
            && s.tally.prompted == [0, 1]
  {
    AnswersYesNo();
    var bs := [FeatureX, OldStuff];
    var answers := [Yes, Other];
    var p0 := Start.(prompted := [0]);
    assert Start.(prompted := Start.prompted + [0]) == p0;
    RunFromAnswer(bs, 0, answers, 0, Willing, Start);
    var at := TryDelete("feature-x", answers, 1, Willing);
    assert at == Attempt(true, [SafeDelete("feature-x")], [Removed(Trim(Willing(SafeDelete("feature-x")).stdout))], 1);
    DispatchYes(bs, 0, answers, 1, Willing, p0);
    var acc1 := AfterDelete(p0, at);
    assert acc1 == Tally(1, 0, [SafeDelete("feature-x")], [0], at.reports);
    var p1 := acc1.(prompted := [0, 1]);
    assert acc1.(prompted := acc1.prompted + [1]) == p1;
    RunFromAnswer(bs, 1, answers, 1, Willing, acc1);
    DispatchOther(bs, 1, answers, 2, Willing, p1);
    assert Run(bs, answers, Willing) == Session(p1.(skipped := 1), 2);
  }

  lemma AnswersYesYes()
    ensures Answers(["y", "y"]) == [Yes, Yes]
  {
    assert Trim("y") == "y";
  }

  /**
   * A refused safe delete followed by `y` to the force-delete offer: both
   * commands are issued and the branch counts once.
   */
  lemma ForceAfterRefusal()
    ensures var s := Run([FeatureX], Answers(["y", "y"]), Unmerged);
            && s.stoppedAt == 1
            && s.tally.deleted == 1 && s.tally.skipped == 0
            && s.tally.commands == [SafeDelete("feature-x"), ForceDelete("feature-x")]
  {
    AnswersYesYes();
    var bs := [FeatureX];
    var answers := [Yes, Yes];
    var p0 := Start.(prompted := [0]);
    assert Start.(prompted := Start.prompted + [0]) == p0;
    RunFromAnswer(bs, 0, answers, 0, Unmerged, Start);
    DispatchYes(bs, 0, answers, 1, Unmerged, p0);
    ForceAttempt(answers);
    var at := TryDelete("feature-x", answers, 1, Unmerged);
    assert AfterDelete(p0, at).commands == [SafeDelete("feature-x"), ForceDelete("feature-x")];
  }

  lemma ForceAttempt(answers: seq<Answer>)
    requires answers == [Yes, Yes]
    ensures var at := TryDelete("feature-x", answers, 1, Unmerged);
            at.deleted && at.next == 2 && at.commands == [SafeDelete("feature-x"), ForceDelete("feature-x")]
  {
    assert !Unmerged(SafeDelete("feature-x")).success;
    assert Unmerged(ForceDelete("feature-x")).success;
  }

  lemma AnswersHelpQuit()
    ensures Answers(["?", "Q"]) == [Help, Quit]
  {
    assert Trim("?") == "?";
    assert Trim("Q") == "Q";
    assert Lower("Q") == [LowerChar('Q')] + Lower([]);
    assert Normalize("Q") == "q";
    var a := Answers(["?", "Q"]);
    assert a[0] == Help && a[1] == Quit;
  }

  /** `?` then `q`: the first branch is offered twice and nothing is touched. */
  lemma HelpThenQuit()
    ensures var s := Run([FeatureX, OldStuff], Answers(["?", "Q"]), Willing);
            && s.stoppedAt == 0
            && s.tally == Tally(0, 0, [], [0, 0], [Stopped])
  {
    AnswersHelpQuit();
    var bs := [FeatureX, OldStuff];
    var answers := [Help, Quit];
    RunFromHelp(bs, 0, answers, 0, Willing, Start);
    var p0 := Start.(prompted := [0]);
    assert Start.(prompted := Start.prompted + [0]) == p0;
    RunFromAnswer(bs, 0, answers, 1, Willing, p0);
    assert p0.(prompted := p0.prompted + [0]) == Tally(0, 0, [], [0, 0], []);
  }

  /** The summary after one deletion and one skip says "branch". */
  lemma SummaryOne()
    ensures Summary(1, 1) == "\nDone. Deleted 1 branch, skipped 1."
  {
    assert Decimal(1) == "1";
  }

  /** Any other number of deletions says "branches". */
  lemma SummaryNone()
    ensures Summary(0, 0) == "\nDone. Deleted 0 branches, skipped 0."
  {
    assert Decimal(0) == "0";
  }

  lemma SummaryMany()
    ensures Summary(2, 3) == "\nDone. Deleted 2 branches, skipped 3."
  {
    assert Decimal(2) == "2" && Decimal(3) == "3";
  }
}
