/**
 * The disposition loop of `main`: every listed branch is offered in turn,
 * the answer decides whether it is deleted (with an offer to force-delete
 * when git refuses), skipped, or whether the whole run stops.
 *
 * The standard input is a script of raw lines; once it is used up every
 * further read yields the empty answer.  Git's answers to the removal
 * commands come from an oracle.
 */
module Disposition {

  import opened Wrappers
  import opened Text
  import opened Git
  import opened Branches
  import opened Messages

  /**
   * `prompt`'s normalisation of the line read: `trim().to_lowercase()`.
   * It never lengthens the line, and a blank line (only whitespace) is
   * exactly what gives the empty answer.
   */
  function Normalize(line: string): (a: string)
    ensures |a| <= |line|
    ensures a == "" <==> AllWhitespace(line)
  {
    TrimSplits(line);
    TrimEmpty(line);
    LowerEach(Trim(line));
    Lower(Trim(line))
  }

  /** The four ways `main` tells answers apart. */
  datatype Answer = Yes | Quit | Help | Other

  /** The string comparisons `a == "?"`, `"y"` and `"q"` on a normalised answer. */
  function Classify(a: string): Answer {
    if a == "y" then Yes else if a == "q" then Quit else if a == "?" then Help else Other
  }

  /**
   * The recognised answers are the letters in either case, with any
   * padding; everything else, the empty line included, is `Other`.
   */
  lemma ClassifyLine(line: string)
    ensures Classify(Normalize(line)) == Yes <==> Trim(line) == "y" || Trim(line) == "Y"
    ensures Classify(Normalize(line)) == Quit <==> Trim(line) == "q" || Trim(line) == "Q"
    ensures Classify(Normalize(line)) == Help <==> Trim(line) == "?"
  {
    var t := Trim(line);
    LowerEach(t);
    if |t| == 1 {
      assert t == [t[0]];
      assert Normalize(line) == [LowerChar(t[0])];
    } else {
      assert |Normalize(line)| != 1;
    }
  }

  /** Every line of the input, as `prompt` hands it back and `main` tells it apart. */
  function Answers(input: seq<string>): (answers: seq<Answer>)
    ensures |answers| == |input|
  {
    if input == [] then [] else [Classify(Normalize(input[0]))] + Answers(input[1..])
  }

  /** The `k`-th answer is the `k`-th line, normalised and told apart. */
  lemma {:induction false} AnswersAt(input: seq<string>, k: nat)
    requires k < |input|
    ensures Answers(input)[k] == Classify(Normalize(input[k]))
  {
    if k > 0 {
      AnswersAt(input[1..], k - 1);
    }
  }

  /**
   * `prompt`: the `pos`-th line of the input, normalised; past the end of
   * the input `read_line` leaves the buffer empty.
   */
  function Prompt(input: seq<string>, pos: nat): (a: string)
    ensures pos >= |input| ==> a == ""
    ensures Classify(a) == Read(Answers(input), pos)
  {
    if pos < |input| then
      AnswersAt(input, pos);
      Normalize(input[pos])
    else ""
  }

  /** The answer to the next prompt; past the end of the input, the empty one. */
  function Read(answers: seq<Answer>, pos: nat): Answer {
    if pos < |answers| then answers[pos] else Other
  }

  /** Where the next read starts; at the end of the input it stays put. */
  function Advance(answers: seq<Answer>, pos: nat): nat {
    if pos < |answers| then pos + 1 else pos
  }

  /** How many of the given removal commands git carried out. */
  function Successes(git: Oracle, cs: seq<Command>): nat {
    if cs == [] then 0
    else (if git(cs[0]).success then 1 else 0) + Successes(git, cs[1..])
  }

  lemma SuccessesPair(git: Oracle, c1: Command, c2: Command)
    ensures Successes(git, [c1]) == (if git(c1).success then 1 else 0)
    ensures Successes(git, [c1, c2]) == (if git(c1).success then 1 else 0) + (if git(c2).success then 1 else 0)
  {
    assert [c1, c2][1..] == [c2];
    assert [c2][1..] == [];
    assert [c1][1..] == [];
  }

  lemma {:induction false} SuccessesAppend(git: Oracle, a: seq<Command>, b: seq<Command>)
    ensures Successes(git, a + b) == Successes(git, a) + Successes(git, b)
  {
    if a != [] {
      assert (a + b)[0] == a[0];
      assert (a + b)[1..] == a[1..] + b;
      SuccessesAppend(git, a[1..], b);
    } else {
      assert a + b == b;
    }
  }

  /** A per-branch result line. */
  datatype Report =
    | Removed(output: string)      // git's confirmation
    | Refused(error: string)       // the safe delete failed
    | ForceRefused(error: string)  // the force delete failed too
    | Stopped                      // the `q` notice

  /**
   * The line printed for a report.  A refused safe delete is shown without
   * git's hint lines; a refused force delete is shown as git wrote it.
   */
  function Line(r: Report): (s: string)
    ensures r.Removed? ==> s == "    " + r.output
    ensures r.Refused? ==>
      && "    Failed: " <= s
      && forall l :: l in SplitOn(s[|"    Failed: "|..], '\n') ==> !IsHint(l)
    ensures r.ForceRefused? ==> s == "    Force-delete failed: " + r.error
    ensures r.Stopped? ==> s == "Quit."
  {
    match r
    case Removed(out) => "    " + out
    case Refused(e) =>
      var s := "    Failed: " + StripHints(e);
      assert s[|"    Failed: "|..] == StripHints(e);
      s
    case ForceRefused(e) => "    Force-delete failed: " + e
    case Stopped => "Quit."
  }

  /**
   * What the loop has accumulated: the two counters of `main`, the removal
   * commands issued, the branch index shown by each main prompt (displayed
   * as index + 1), and the per-branch results printed.
   */
  datatype Tally = Tally(deleted: nat, skipped: nat, commands: seq<Command>,
                         prompted: seq<nat>, reports: seq<Report>)

  /** The end of a run: the tally and the index of the branch it stopped at. */
  datatype Session = Session(tally: Tally, stoppedAt: nat)

  /** What answering `y` for one branch leads to. */
  datatype Attempt = Attempt(deleted: bool, commands: seq<Command>, reports: seq<Report>, next: nat)

  /**
   * The `"y"` arm: a safe delete; if git refuses, the reason, then the offer
   * to force-delete, taken only on another `y`.
   */
  function TryDelete(name: string, answers: seq<Answer>, pos: nat, git: Oracle): (a: Attempt)
    requires pos <= |answers|
    ensures pos <= a.next <= |answers|
    ensures 1 <= |a.commands| <= 2 && a.commands[0] == SafeDelete(name)
    ensures |a.commands| == 2 <==> !git(SafeDelete(name)).success && Read(answers, pos) == Yes
    ensures |a.commands| == 2 ==> a.commands[1] == ForceDelete(name)
    // one report per command: git's trimmed answer to it
    ensures |a.reports| == |a.commands|
    ensures git(SafeDelete(name)).success ==> a.reports[0] == Removed(Trim(git(SafeDelete(name)).stdout))
    ensures !git(SafeDelete(name)).success ==> a.reports[0] == Refused(Trim(git(SafeDelete(name)).stderr))
    ensures |a.commands| == 2 ==>
      a.reports[1] == if git(ForceDelete(name)).success then Removed(Trim(git(ForceDelete(name)).stdout))
                      else ForceRefused(Trim(git(ForceDelete(name)).stderr))
    // a successful safe delete reads no answer, a refused one reads the retry answer
    ensures git(SafeDelete(name)).success ==> a.next == pos
    ensures !git(SafeDelete(name)).success ==> a.next == Advance(answers, pos)
    // the branch counts as deleted exactly when one removal command succeeded
    ensures Successes(git, a.commands) <= 1
    ensures a.deleted <==> Successes(git, a.commands) == 1
  {
    SuccessesPair(git, SafeDelete(name), ForceDelete(name));
    match Execute(git, SafeDelete(name))
    case Ok(out) =>
      Attempt(true, [SafeDelete(name)], [Removed(out)], pos)
    case Err(e) =>
      var next := Advance(answers, pos);
      if Read(answers, pos) == Yes then
        var cs := [SafeDelete(name), ForceDelete(name)];
        match Execute(git, ForceDelete(name))
        case Ok(out) => Attempt(true, cs, [Refused(e), Removed(out)], next)
        case Err(e2) => Attempt(false, cs, [Refused(e), ForceRefused(e2)], next)
      else
        Attempt(false, [SafeDelete(name)], [Refused(e)], next)
  }

  /**
   * What the `y` arm prints: git's output after a removal, the refusal of
   * the safe delete without its hint lines, and the refusal of a force
   * delete as git wrote it (trimmed).
   */
  lemma ShownLines(name: string, answers: seq<Answer>, pos: nat, git: Oracle)
    requires pos <= |answers|
    ensures var a := TryDelete(name, answers, pos, git);
            var safe := git(SafeDelete(name));
            var force := git(ForceDelete(name));
            && (safe.success ==> Line(a.reports[0]) == "    " + Trim(safe.stdout))
            && (!safe.success ==> Line(a.reports[0]) == "    Failed: " + StripHints(Trim(safe.stderr)))
            && (|a.reports| == 2 && force.success ==> Line(a.reports[1]) == "    " + Trim(force.stdout))
            && (|a.reports| == 2 && !force.success ==> Line(a.reports[1]) == "    Force-delete failed: " + Trim(force.stderr))
  {
  }

  /** The tally after answering `y` for branch `i`. */
  function AfterDelete(acc: Tally, at: Attempt): Tally {
    acc.(deleted := acc.deleted + (if at.deleted then 1 else 0),
         commands := acc.commands + at.commands,
         reports := acc.reports + at.reports)
  }

  /**
   * The loop from branch `i` on, with `pos` answers already read.  The main
   * prompt is shown; `?` shows it again for the same branch.
   */
  function RunFrom(bs: seq<Branch>, i: nat, answers: seq<Answer>, pos: nat, git: Oracle, acc: Tally): (r: Session)
    requires i <= |bs| && pos <= |answers|
    decreases |bs| - i, |answers| - pos + 1
    // the loop stops at or after branch `i` and never past the last one
    ensures i <= r.stoppedAt <= |bs|
    // it only counts up and only adds commands, reports and prompts
    ensures acc.deleted <= r.tally.deleted && acc.skipped <= r.tally.skipped
    ensures acc.commands <= r.tally.commands && acc.reports <= r.tally.reports && acc.prompted <= r.tally.prompted
  {
    if i == |bs| then Session(acc, i)
    else
      var a := Read(answers, pos);
      var acc' := acc.(prompted := acc.prompted + [i]);
      if a == Help then RunFrom(bs, i, answers, pos + 1, git, acc')
      else Dispatch(bs, i, a, answers, Advance(answers, pos), git, acc')
  }

  /** The `match answer.as_str()` on an answer other than `?`. */
  function Dispatch(bs: seq<Branch>, i: nat, a: Answer, answers: seq<Answer>, pos: nat, git: Oracle, acc: Tally): (r: Session)
    requires i < |bs| && pos <= |answers| && a != Help
    decreases |bs| - i, 0
    // only `q` stops at branch `i`; the others go on to the next one
    ensures a == Quit <==> r.stoppedAt == i
    ensures i <= r.stoppedAt <= |bs|
    ensures acc.deleted <= r.tally.deleted && acc.skipped <= r.tally.skipped
    ensures acc.commands <= r.tally.commands && acc.reports <= r.tally.reports && acc.prompted <= r.tally.prompted
  {
    match a
    case Yes =>
      var at := TryDelete(bs[i].name, answers, pos, git);
      RunFrom(bs, i + 1, answers, at.next, git, AfterDelete(acc, at))
    case Quit =>
      Session(acc.(reports := acc.reports + [Stopped]), i)
    case Other =>
      RunFrom(bs, i + 1, answers, pos, git, acc.(skipped := acc.skipped + 1))
  }

  /** One step of the loop on `?`: the same branch is offered again. */
  lemma RunFromHelp(bs: seq<Branch>, i: nat, answers: seq<Answer>, pos: nat, git: Oracle, acc: Tally)
    requires i < |bs| && pos <= |answers| && Read(answers, pos) == Help
    ensures pos < |answers|
    ensures RunFrom(bs, i, answers, pos, git, acc) == RunFrom(bs, i, answers, pos + 1, git, acc.(prompted := acc.prompted + [i]))
  {
  }

  /** One step of the loop on any other answer. */
  lemma RunFromAnswer(bs: seq<Branch>, i: nat, answers: seq<Answer>, pos: nat, git: Oracle, acc: Tally)
    requires i < |bs| && pos <= |answers| && Read(answers, pos) != Help
    ensures RunFrom(bs, i, answers, pos, git, acc)
         == Dispatch(bs, i, Read(answers, pos), answers, Advance(answers, pos), git, acc.(prompted := acc.prompted + [i]))
  {
  }

  /** The `"y"` arm, unfolded. */
  lemma DispatchYes(bs: seq<Branch>, i: nat, answers: seq<Answer>, pos: nat, git: Oracle, acc: Tally)
    requires i < |bs| && pos <= |answers|
    ensures var at := TryDelete(bs[i].name, answers, pos, git);
            Dispatch(bs, i, Yes, answers, pos, git, acc) == RunFrom(bs, i + 1, answers, at.next, git, AfterDelete(acc, at))
  {
  }

  /** Any answer but `y`, `q` and `?` skips the branch. */
  lemma DispatchOther(bs: seq<Branch>, i: nat, answers: seq<Answer>, pos: nat, git: Oracle, acc: Tally)
    requires i < |bs| && pos <= |answers|
    ensures Dispatch(bs, i, Other, answers, pos, git, acc) == RunFrom(bs, i + 1, answers, pos, git, acc.(skipped := acc.skipped + 1))
  {
  }

  const Start := Tally(0, 0, [], [], [])

  /** A whole run over the listed branches. */
  function Run(bs: seq<Branch>, answers: seq<Answer>, git: Oracle): (r: Session)
    ensures r.stoppedAt <= |bs|
    ensures bs == [] ==> r == Session(Start, 0)
  {
    RunFrom(bs, 0, answers, 0, git, Start)
  }

  /** `name` belongs to one of the first `n` branches. */
  ghost predicate Offered(bs: seq<Branch>, n: nat, name: string) {
    exists j :: 0 <= j < n && j < |bs| && bs[j].name == name
  }

  /** What holds of a tally once the first `n` branches are dealt with. */
  ghost predicate Sound(bs: seq<Branch>, n: nat, git: Oracle, t: Tally) {
    && n <= |bs|
    && t.deleted + t.skipped <= n
    && t.deleted == Successes(git, t.commands)
    && |t.commands| <= 2 * n
    && (forall c :: c in t.commands ==> Offered(bs, n, c.branch))
    && (forall k :: 0 <= k < |t.prompted| ==> t.prompted[k] <= n && t.prompted[k] < |bs|)
    && (forall k1, k2 :: 0 <= k1 < k2 < |t.prompted| ==> t.prompted[k1] <= t.prompted[k2])
    && (forall j :: 0 <= j < n ==> j in t.prompted)
  }

  /** Showing the prompt for branch `i` keeps `Sound`. */
  lemma SoundPrompt(bs: seq<Branch>, i: nat, git: Oracle, acc: Tally)
    requires i < |bs| && Sound(bs, i, git, acc)
    ensures Sound(bs, i, git, acc.(prompted := acc.prompted + [i]))
  {
    assert i in acc.(prompted := acc.prompted + [i]).prompted;
  }

  /** Answering `y` for branch `i` deals with it. */
  lemma SoundDelete(bs: seq<Branch>, i: nat, git: Oracle, acc: Tally, at: Attempt)
    requires i < |bs| && Sound(bs, i, git, acc) && i in acc.prompted
    requires |at.commands| <= 2 && forall c :: c in at.commands ==> c.branch == bs[i].name
    requires Successes(git, at.commands) <= 1 && (at.deleted <==> Successes(git, at.commands) == 1)
    ensures Sound(bs, i + 1, git, AfterDelete(acc, at))
  {
    var acc' := AfterDelete(acc, at);
    SuccessesAppend(git, acc.commands, at.commands);
    forall c | c in acc'.commands ensures Offered(bs, i + 1, c.branch) {
      if c in at.commands {
        assert bs[i].name == c.branch;
      } else {
        assert Offered(bs, i, c.branch);
      }
    }
  }

  /** Any other answer skips branch `i`. */
  lemma SoundSkip(bs: seq<Branch>, i: nat, git: Oracle, acc: Tally)
    requires i < |bs| && Sound(bs, i, git, acc) && i in acc.prompted
    ensures Sound(bs, i + 1, git, acc.(skipped := acc.skipped + 1))
  {
    forall c | c in acc.commands ensures Offered(bs, i + 1, c.branch) {
      assert Offered(bs, i, c.branch);
    }
  }

  /** The loop keeps `Sound`. */
  lemma {:induction false} RunFromSound(bs: seq<Branch>, i: nat, answers: seq<Answer>, pos: nat, git: Oracle, acc: Tally)
    requires i <= |bs| && pos <= |answers|
    requires Sound(bs, i, git, acc)
    ensures var s := RunFrom(bs, i, answers, pos, git, acc);
            i <= s.stoppedAt && Sound(bs, s.stoppedAt, git, s.tally)
    decreases |bs| - i, |answers| - pos + 2
  {
    if i < |bs| {
      var acc' := acc.(prompted := acc.prompted + [i]);
      SoundPrompt(bs, i, git, acc);
      if Read(answers, pos) == Help {
        RunFromHelp(bs, i, answers, pos, git, acc);
        RunFromSound(bs, i, answers, pos + 1, git, acc');
      } else {
        RunFromAnswer(bs, i, answers, pos, git, acc);
        DispatchSound(bs, i, Read(answers, pos), answers, Advance(answers, pos), git, acc');
      }
    }
  }

  lemma {:induction false} DispatchSound(bs: seq<Branch>, i: nat, a: Answer, answers: seq<Answer>, pos: nat, git: Oracle, acc: Tally)
    requires i < |bs| && pos <= |answers| && a != Help
    requires Sound(bs, i, git, acc) && i in acc.prompted
    ensures var s := Dispatch(bs, i, a, answers, pos, git, acc);
            i <= s.stoppedAt && Sound(bs, s.stoppedAt, git, s.tally)
    decreases |bs| - i, 1
  {
    match a
    case Yes => YesSound(bs, i, answers, pos, git, acc);
    case Quit =>
    case Other =>
      SoundSkip(bs, i, git, acc);
      RunFromSound(bs, i + 1, answers, pos, git, acc.(skipped := acc.skipped + 1));
  }

  lemma {:induction false} YesSound(bs: seq<Branch>, i: nat, answers: seq<Answer>, pos: nat, git: Oracle, acc: Tally)
    requires i < |bs| && pos <= |answers|
    requires Sound(bs, i, git, acc) && i in acc.prompted
    ensures var s := Dispatch(bs, i, Yes, answers, pos, git, acc);
            i <= s.stoppedAt && Sound(bs, s.stoppedAt, git, s.tally)
    decreases |bs| - i, 0
  {
    var at := TryDelete(bs[i].name, answers, pos, git);
    SoundDelete(bs, i, git, acc, at);
    RunFromSound(bs, i + 1, answers, at.next, git, AfterDelete(acc, at));
  }

  /** A run ends before the last branch only right after a `q` for the branch it stops at. */
  ghost predicate QuitAt(bs: seq<Branch>, s: Session) {
    s.stoppedAt < |bs| ==>
      && s.tally.prompted != [] && s.tally.prompted[|s.tally.prompted| - 1] == s.stoppedAt
      && s.tally.reports != [] && s.tally.reports[|s.tally.reports| - 1] == Stopped
  }

  lemma {:induction false} RunFromQuit(bs: seq<Branch>, i: nat, answers: seq<Answer>, pos: nat, git: Oracle, acc: Tally)
    requires i <= |bs| && pos <= |answers|
    ensures QuitAt(bs, RunFrom(bs, i, answers, pos, git, acc))
    decreases |bs| - i, |answers| - pos + 1
  {
    if i < |bs| {
      var acc' := acc.(prompted := acc.prompted + [i]);
      if Read(answers, pos) == Help {
        RunFromHelp(bs, i, answers, pos, git, acc);
        RunFromQuit(bs, i, answers, pos + 1, git, acc');
      } else {
        RunFromAnswer(bs, i, answers, pos, git, acc);
        DispatchQuit(bs, i, Read(answers, pos), answers, Advance(answers, pos), git, acc');
      }
    }
  }

  lemma {:induction false} DispatchQuit(bs: seq<Branch>, i: nat, a: Answer, answers: seq<Answer>, pos: nat, git: Oracle, acc: Tally)
    requires i < |bs| && pos <= |answers| && a != Help
    requires acc.prompted != [] && acc.prompted[|acc.prompted| - 1] == i
    ensures QuitAt(bs, Dispatch(bs, i, a, answers, pos, git, acc))
    decreases |bs| - i, 0
  {
    match a
    case Yes =>
      var at := TryDelete(bs[i].name, answers, pos, git);
      RunFromQuit(bs, i + 1, answers, at.next, git, AfterDelete(acc, at));
    case Quit =>
    case Other =>
      RunFromQuit(bs, i + 1, answers, pos, git, acc.(skipped := acc.skipped + 1));
  }

  /**
   * Over a whole run: no more deletions and skips than branches dealt with,
   * one deletion per command git carried out, every command aimed at a
   * branch offered before the stop, every prompt showing a position
   * between 1 and the total, and an early stop only right after a `q`.
   */
  lemma RunSound(bs: seq<Branch>, answers: seq<Answer>, git: Oracle)
    ensures var s := Run(bs, answers, git);
            s.stoppedAt <= |bs|
            && s.tally.deleted + s.tally.skipped <= s.stoppedAt
            && s.tally.deleted == Successes(git, s.tally.commands)
            && (forall c :: c in s.tally.commands ==> Offered(bs, s.stoppedAt, c.branch))
            && (forall k :: 0 <= k < |s.tally.prompted| ==> 1 <= s.tally.prompted[k] + 1 <= |bs|)
            && (forall j :: 0 <= j < s.stoppedAt ==> j in s.tally.prompted)
            && QuitAt(bs, s)
  {
    RunFromSound(bs, 0, answers, 0, git, Start);
    RunFromQuit(bs, 0, answers, 0, git, Start);
  }

  /** `n` copies of the same branch index. */
  function Repeat(i: nat, n: nat): (r: seq<nat>)
    ensures |r| == n && forall k :: 0 <= k < n ==> r[k] == i
  {
    if n == 0 then [] else [i] + Repeat(i, n - 1)
  }

  /**
   * Answering `?` any number of times changes nothing but the prompts: the
   * same branch is offered again and the counters and commands stay as they
   * were.
   */
  lemma {:induction false} HelpReprompts(bs: seq<Branch>, i: nat, answers: seq<Answer>, pos: nat, n: nat, git: Oracle, acc: Tally)
    requires i < |bs| && pos + n <= |answers|
    requires forall k :: pos <= k < pos + n ==> answers[k] == Help
    ensures RunFrom(bs, i, answers, pos, git, acc)
         == RunFrom(bs, i, answers, pos + n, git, acc.(prompted := acc.prompted + Repeat(i, n)))
    decreases n
  {
    if n > 0 {
      var acc' := acc.(prompted := acc.prompted + [i]);
      RunFromHelp(bs, i, answers, pos, git, acc);
      HelpReprompts(bs, i, answers, pos + 1, n - 1, git, acc');
      assert acc'.prompted + Repeat(i, n - 1) == acc.prompted + Repeat(i, n);
    } else {
      assert acc.prompted + Repeat(i, 0) == acc.prompted;
    }
  }

  /**
   * After `n` times `?` the first other answer decides what happens to the
   * branch, which by then has been offered `n + 1` times.
   */
  lemma AnswerAfterHelps(bs: seq<Branch>, i: nat, answers: seq<Answer>, pos: nat, n: nat, git: Oracle, acc: Tally)
    requires i < |bs| && pos + n <= |answers|
    requires forall k :: pos <= k < pos + n ==> answers[k] == Help
    requires Read(answers, pos + n) != Help
    ensures RunFrom(bs, i, answers, pos, git, acc)
         == Dispatch(bs, i, Read(answers, pos + n), answers, Advance(answers, pos + n), git,
                     acc.(prompted := acc.prompted + Repeat(i, n) + [i]))
  {
    HelpReprompts(bs, i, answers, pos, n, git, acc);
    RunFromAnswer(bs, i, answers, pos + n, git, acc.(prompted := acc.prompted + Repeat(i, n)));
  }

  /**
   * `q`, after any number of `?`, ends the run at the branch on offer: no
   * later branch is offered, nothing more is deleted or skipped, and the
   * only additions are the prompts shown and the quit notice.
   */
  lemma QuitStops(bs: seq<Branch>, i: nat, answers: seq<Answer>, pos: nat, n: nat, git: Oracle, acc: Tally)
    requires i < |bs| && pos + n <= |answers|
    requires forall k :: pos <= k < pos + n ==> answers[k] == Help
    requires Read(answers, pos + n) == Quit
    ensures RunFrom(bs, i, answers, pos, git, acc)
         == Session(acc.(prompted := acc.prompted + Repeat(i, n) + [i], reports := acc.reports + [Stopped]), i)
  {
    AnswerAfterHelps(bs, i, answers, pos, n, git, acc);
  }

  /** The indices `i, i + 1, ..., j - 1`. */
  function Range(i: nat, j: nat): (r: seq<nat>)
    requires i <= j
    ensures |r| == j - i && forall k :: 0 <= k < j - i ==> r[k] == i + k
    decreases j - i
  {
    if i == j then [] else [i] + Range(i + 1, j)
  }

  /**
   * Once the input is used up every remaining branch is offered once and
   * skipped: the empty line is neither `y`, `q` nor `?`.
   */
  lemma {:induction false} EndOfInputSkips(bs: seq<Branch>, i: nat, answers: seq<Answer>, git: Oracle, acc: Tally)
    requires i <= |bs|
    ensures RunFrom(bs, i, answers, |answers|, git, acc)
         == Session(acc.(skipped := acc.skipped + (|bs| - i), prompted := acc.prompted + Range(i, |bs|)), |bs|)
    decreases |bs| - i
  {
    if i < |bs| {
      var acc' := acc.(prompted := acc.prompted + [i], skipped := acc.skipped + 1);
      RunFromAnswer(bs, i, answers, |answers|, git, acc);
      EndOfInputSkips(bs, i + 1, answers, git, acc');
      assert acc'.prompted + Range(i + 1, |bs|) == acc.prompted + Range(i, |bs|);
    } else {
      assert acc.prompted + Range(i, i) == acc.prompted;
    }
  }

  /**
   * The `"y"` arm of the loop: a safe delete and, when git refuses, the
   * force-delete offer; returns what `TryDelete` describes.
   */
  method Remove(name: string, input: seq<string>, pos: nat, git: Oracle) returns (at: Attempt)
    requires pos <= |input|
    ensures at == TryDelete(name, Answers(input), pos, git)
  {
    var commands := [SafeDelete(name)];
    match Execute(git, SafeDelete(name))
    case Ok(out) =>
      at := Attempt(true, commands, [Removed(out)], pos);
    case Err(e) =>
      var reports := [Refused(e)];
      var retry := Prompt(input, pos);
      var next := if pos < |input| then pos + 1 else pos;
      if retry == "y" {
        commands := commands + [ForceDelete(name)];
        match Execute(git, ForceDelete(name))
        case Ok(out) =>
          at := Attempt(true, commands, reports + [Removed(out)], next);
        case Err(e2) =>
          at := Attempt(false, commands, reports + [ForceRefused(e2)], next);
      } else {
        at := Attempt(false, commands, reports, next);
      }
  }

  /**
   * The prompt loop for one branch: `?` shows the help and asks again, any
   * other answer ends it.  Returns that answer, where the next read starts
   * and how many `?` came before it.
   */
  method Ask(input: seq<string>, pos: nat) returns (answer: string, next: nat, helps: nat)
    requires pos <= |input|
    ensures pos + helps <= |input|
    ensures forall k :: pos <= k < pos + helps ==> Answers(input)[k] == Help
    ensures Classify(answer) == Read(Answers(input), pos + helps) != Help
    ensures next == Advance(Answers(input), pos + helps)
  {
    ghost var answers := Answers(input);
    helps := 0;
    answer := Prompt(input, pos);
    next := if pos < |input| then pos + 1 else pos;
    while answer == "?"
      invariant pos + helps <= |answers|
      invariant forall k :: pos <= k < pos + helps ==> answers[k] == Help
      invariant Classify(answer) == Read(answers, pos + helps)
      invariant next == Advance(answers, pos + helps)
      decreases |answers| - (pos + helps)
    {
      assert Read(answers, pos + helps) == Help;
      helps := helps + 1;
      answer := Prompt(input, next);
      next := if next < |input| then next + 1 else next;
    }
  }

  /**
   * The loop of `main`, over the lines of the standard input and git's
   * answers to the removal commands.
   */
  method Dispose(branches: seq<Branch>, input: seq<string>, git: Oracle) returns (s: Session)
    ensures s == Run(branches, Answers(input), git)
    ensures s.stoppedAt <= |branches|
    ensures s.tally.deleted + s.tally.skipped <= s.stoppedAt
    ensures s.tally.deleted == Successes(git, s.tally.commands)
    ensures forall c :: c in s.tally.commands ==> Offered(branches, s.stoppedAt, c.branch)
    ensures forall k :: 0 <= k < |s.tally.prompted| ==> 1 <= s.tally.prompted[k] + 1 <= |branches|
  {
    ghost var answers := Answers(input);
    RunSound(branches, answers, git);
    var deleted, skipped := 0, 0;
    var commands: seq<Command> := [];
    var prompted: seq<nat> := [];
    var reports: seq<Report> := [];
    var pos: nat := 0;
    var total := |branches|;
    for i := 0 to total
      invariant pos <= |input|
      invariant RunFrom(branches, i, answers, pos, git, Tally(deleted, skipped, commands, prompted, reports))
             == Run(branches, answers, git)
    {
      var branch := branches[i];
      var answer, next, helps := Ask(input, pos);
      AnswerAfterHelps(branches, i, answers, pos, helps, git, Tally(deleted, skipped, commands, prompted, reports));
      prompted := prompted + Repeat(i, helps) + [i];
      pos := next;
      ghost var before := Tally(deleted, skipped, commands, prompted, reports);
      if answer == "y" {
        DispatchYes(branches, i, answers, pos, git, before);
        var at := Remove(branch.name, input, pos, git);
        deleted := deleted + (if at.deleted then 1 else 0);
        commands := commands + at.commands;
        reports := reports + at.reports;
        pos := at.next;
        assert Tally(deleted, skipped, commands, prompted, reports) == AfterDelete(before, at);
        assert RunFrom(branches, i + 1, answers, pos, git, AfterDelete(before, at)) == Run(branches, answers, git);
      } else if answer == "q" {
        reports := reports + [Stopped];
        return Session(Tally(deleted, skipped, commands, prompted, reports), i);
      } else {
        assert Classify(answer) == Other;
        DispatchOther(branches, i, answers, pos, git, before);
        skipped := skipped + 1;
        assert Tally(deleted, skipped, commands, prompted, reports) == before.(skipped := before.skipped + 1);
      }
    }
    s := Session(Tally(deleted, skipped, commands, prompted, reports), total);
  }
}
