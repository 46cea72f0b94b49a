/** Texts the program prints: the hint-free failure reason and the summary. */
module Messages {

  import opened Text

  /** An advisory line from git, such as the suggestion to use `-D`. */
  predicate IsHint(line: string) {
    "hint:" <= line
  }

  /** `.filter(|l| !l.starts_with("hint:"))`. */
  function KeptLines(ls: seq<string>): (r: seq<string>)
    ensures forall l :: l in r <==> l in ls && !IsHint(l)
    ensures |r| <= |ls|
  {
    if ls == [] then []
    else if IsHint(ls[0]) then KeptLines(ls[1..])
    else [ls[0]] + KeptLines(ls[1..])
  }

  /** The filter keeps the surviving lines in their original order. */
  lemma {:induction false} KeptLinesAppend(a: seq<string>, b: seq<string>)
    ensures KeptLines(a + b) == KeptLines(a) + KeptLines(b)
  {
    if a != [] {
      assert (a + b)[0] == a[0];
      assert (a + b)[1..] == a[1..] + b;
      KeptLinesAppend(a[1..], b);
    } else {
      assert a + b == b;
    }
  }

  /**
   * The failure reason shown after a refused `git branch -d`: the lines of
   * the error text that are not hints, joined with `\n`.  Read back line by
   * line, the message is exactly the kept lines, so it holds no hint line.
   */
  function StripHints(error: string): (msg: string)
    ensures forall l :: l in SplitOn(msg, '\n') ==> !IsHint(l)
    ensures KeptLines(Lines(error)) != [] ==> SplitOn(msg, '\n') == KeptLines(Lines(error))
    ensures KeptLines(Lines(error)) == [] ==> msg == ""
  {
    var kept := KeptLines(Lines(error));
    if kept == [] then
      assert SplitOn("", '\n') == [""];
      ""
    else
      SplitOnJoin(kept, '\n');
      Join(kept, "\n")
  }

  /** An error text with no hints in it is shown unchanged. */
  lemma NoHintsUnchanged(error: string)
    requires '\r' !in error
    requires error == [] || error[|error| - 1] != '\n'
    requires forall l :: l in Lines(error) ==> !IsHint(l)
    ensures StripHints(error) == error
  {
    KeptAll(Lines(error));
    JoinLines(error);
  }

  lemma {:induction false} KeptAll(ls: seq<string>)
    requires forall l :: l in ls ==> !IsHint(l)
    ensures KeptLines(ls) == ls
  {
    if ls != [] {
      assert ls[0] in ls;
      assert forall l :: l in ls[1..] ==> l in ls;
      KeptAll(ls[1..]);
    }
  }

  /** The noun ending in the summary: "branch" for one, "branches" otherwise. */
  function PluralSuffix(deleted: nat): (suffix: string)
    ensures suffix == "" <==> deleted == 1
    ensures suffix != "" ==> suffix == "es"
  {
    if deleted == 1 then "" else "es"
  }

  /** The closing `Done. Deleted N branch(es), skipped M.` line. */
  function Summary(deleted: nat, skipped: nat): string {
    "\nDone. Deleted " + Decimal(deleted) + " branch" + PluralSuffix(deleted)
    + ", skipped " + Decimal(skipped) + "."
  }

  /** The summary line after its fixed opening: the deleted count, then the rest. */
  lemma SummaryAfterHead(deleted: nat, skipped: nat)
    ensures |Summary(deleted, skipped)| >= 15
    ensures Summary(deleted, skipped)[15..] == Decimal(deleted) + (" branch" + PluralSuffix(deleted) + ", skipped " + Decimal(skipped) + ".")
  {
    var head := "\nDone. Deleted ";
    assert |head| == 15;
    var tail := Decimal(deleted) + (" branch" + PluralSuffix(deleted) + ", skipped " + Decimal(skipped) + ".");
    assert Summary(deleted, skipped) == head + tail;
  }

  /** The summary line tells the counts apart: it gives both of them back. */
  lemma SummaryCounts(deleted: nat, skipped: nat, deleted2: nat, skipped2: nat)
    requires Summary(deleted, skipped) == Summary(deleted2, skipped2)
    ensures deleted == deleted2 && skipped == skipped2
  {
    SummaryAfterHead(deleted, skipped);
    SummaryAfterHead(deleted2, skipped2);
    var rest := " branch" + PluralSuffix(deleted) + ", skipped " + Decimal(skipped) + ".";
    var rest2 := " branch" + PluralSuffix(deleted2) + ", skipped " + Decimal(skipped2) + ".";
    assert rest[0] == ' ' && rest2[0] == ' ';
    DigitRun(Decimal(deleted), rest, Decimal(deleted2), rest2);
    DecimalRoundTrip(deleted);
    DecimalRoundTrip(deleted2);
    var mid := " branch" + PluralSuffix(deleted) + ", skipped ";
    assert rest == mid + (Decimal(skipped) + ".");
    assert rest2 == mid + (Decimal(skipped2) + ".");
    assert Decimal(skipped) + "." == rest[|mid|..];
    DigitRun(Decimal(skipped), ".", Decimal(skipped2), ".");
    DecimalRoundTrip(skipped);
    DecimalRoundTrip(skipped2);
  }
}
