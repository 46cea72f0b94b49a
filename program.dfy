/**
 * `main`: find the default branch, list the local branches, drop the
 * default one, walk the rest interactively and print the summary.
 */
module Program {

  import opened Wrappers
  import opened Text
  import opened Git
  import opened Branches
  import opened Messages
  import opened Disposition

  /** How a run of the program ends. */
  datatype Exit =
    | ListingFailed(error: string)                // `for-each-ref` failed: exit status 1
    | NothingToDelete                             // "No branches to delete."
    | Finished(session: Session, summary: string) // the loop ran and the summary was printed

  /** The branches offered: every local branch except the default one. */
  function Candidates(originHead: Option<ProcessOutput>, probe: Probe, bs: seq<Branch>): (r: seq<Branch>)
    ensures forall b :: b in r <==> b in bs && DefaultBranch(originHead, probe) != Some(b.name)
  {
    WithoutDefault(bs, DefaultBranch(originHead, probe))
  }

  /** The loop never issues a removal command for the branch the filter dropped. */
  lemma DefaultNeverDeleted(bs: seq<Branch>, default: Option<string>, answers: seq<Answer>, git: Oracle)
    ensures forall c :: c in Run(WithoutDefault(bs, default), answers, git).tally.commands ==> default != Some(c.branch)
  {
    var cands := WithoutDefault(bs, default);
    var s := Run(cands, answers, git);
    RunSound(cands, answers, git);
    forall c | c in s.tally.commands ensures default != Some(c.branch) {
      assert Offered(cands, s.stoppedAt, c.branch);
      var j :| 0 <= j < s.stoppedAt && j < |cands| && cands[j].name == c.branch;
      assert cands[j] in cands;
    }
  }

  /**
   * The whole program over its environment: what git says about
   * `origin/HEAD` and the fallback names, the `for-each-ref` listing, the
   * lines of the standard input and git's answers to removal commands.
   */
  method Prune(originHead: Option<ProcessOutput>, probe: Probe, listing: ProcessOutput,
               input: seq<string>, git: Oracle) returns (exit: Exit)
    ensures exit.ListingFailed? <==> !listing.success
    ensures exit.ListingFailed? ==> exit.error == listing.stderr
    ensures listing.success ==>
      var cands := Candidates(originHead, probe, ParseLines(Lines(listing.stdout)));
      (exit.NothingToDelete? <==> cands == [])
      && (exit.Finished? ==> exit.session == Run(cands, Answers(input), git))
    ensures exit.Finished? ==>
      var t := exit.session.tally;
      && exit.summary == Summary(t.deleted, t.skipped)
      && (forall c :: c in t.commands ==> DefaultBranch(originHead, probe) != Some(c.branch))
      && t.deleted + t.skipped <= exit.session.stoppedAt
  {
    var default := DefaultBranch(originHead, probe);
    match LocalBranches(listing)
    case Err(e) =>
      exit := ListingFailed(e);
    case Ok(all) =>
      var branches := WithoutDefault(all, default);
      if branches == [] {
        exit := NothingToDelete;
      } else {
        var s := Dispose(branches, input, git);
        DefaultNeverDeleted(all, default, Answers(input), git);
        exit := Finished(s, Summary(s.tally.deleted, s.tally.skipped));
      }
  }
}
