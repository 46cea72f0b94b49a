# git-brdi, modelled in Dafny

`git-brdi` deletes local git branches interactively. It lists the local
branches, most recently committed first, and leaves out the repository's
default branch. It then asks about each remaining branch in turn:

- `y` deletes the branch with `git branch -d`. If git refuses, it shows the
  reason without git's `hint:` lines and offers a forced `git branch -D`.
- `q` stops.
- `?` shows the help and asks again.
- Anything else, including the empty answer at the end of the input, skips
  the branch.

At the end it prints `Done. Deleted N branch(es), skipped M.`.

This project models the logic of `src/main.rs`:

- the listing parser and the default-branch resolution and filter;
- the normalisation of answers;
- the hint filter;
- the disposition loop with its two counters;
- the summary line.

Everything git does is an input. `ProcessOutput` values stand for the
listing and the `origin/HEAD` lookup. A `Probe` answers the `rev-parse
--verify` checks. An `Oracle` answers each removal command. The standard
input is a sequence of lines.

Modules, one per file:

- `Wrappers` (`wrappers.dfy`): `Option` and `Result`.
- `Text` (`text.dfy`): the Rust string operations the program uses. These
  are `trim`, ASCII `to_lowercase`, `split_once`, `strip_prefix`, `lines`,
  `join` and `{}` on integers, each with the facts the rest needs. It also
  has `SplitOn`, a model of `split` on one character. The program never
  calls `split`. `SplitOn` is only used to state the hint filter's
  contract: the message, cut back into lines.
- `Git` (`git.dfy`): process output, the two removal commands, and
  `delete_branch` / `force_delete_branch`.
- `Branches` (`branches.dfy`): `local_branches` parsing, `default_branch`,
  and the default filter in `main`.
- `Messages` (`messages.dfy`): the hint filter and the summary.
- `Disposition` (`disposition.dfy`): the loop of `main`.
  - The functions `RunFrom`/`Dispatch` specify it.
  - The method `Dispose` runs it imperatively, with the `?` re-prompt loop
    `Ask` and the `y` arm `Remove`. It is proved to compute `Run`.
  - Lemmas about `Run` state the counter invariants.
- `Program` (`program.dfy`): `main` as the method `Prune`.
- `Scenarios` (`scenarios.dfy`): concrete runs worked out against the
  model.

## Model

| member | source | states |
|---|---|---|
| `Text.TrimSplits` | src/main.rs:99 | `trim` keeps one slice of the text, with no whitespace at either end, and removes only whitespace before and after it |
| `Text.TrimStartSplits` | src/main.rs:99 | `trim_start` keeps a suffix that does not start with whitespace, and the part it removes is all whitespace |
| `Text.TrimEndSplits` | src/main.rs:99 | `trim_end` keeps a prefix that does not end with whitespace, and the part it removes is all whitespace |
| `Text.TrimPadded` | src/main.rs:99 | trimming a trimmed text padded with whitespace on both sides gives that text back |
| `Text.TrimEmpty` | src/main.rs:99 | a text trims to nothing exactly when it is all whitespace |
| `Text.LowerEach` | src/main.rs:99 | lowercasing keeps the length and maps each character on its own |
| `Text.SplitOnce` | src/main.rs:59 | no result exactly when the separator is absent; otherwise the text is the part before, the separator and the part after, and the part before holds no separator (so the split is at the first one) |
| `Text.StripPrefix` | src/main.rs:19 | a result exactly when the prefix is there, and then prefix plus result is the text |
| `Text.Lines` | src/main.rs:56-57 | a non-empty text has at least one line, and no line holds a `\n` |
| `Text.LinesOfTerminated` | src/main.rs:56-57 | splitting `\n`-terminated lines, with no `\n` and no trailing `\r` in them, gives back exactly those lines |
| `Text.JoinLines` | src/main.rs:147-151 | joining the lines of a text with no `\r` by `\n` gives the text back, except a final line ending |
| `Text.SplitOnJoin` | src/main.rs:151 | splitting at `c` undoes joining with `c` when no piece holds a `c` |
| `Text.Decimal` | src/main.rs:175-180 | `{}` of a number is a non-empty string of digits with no leading zero except for `0` itself |
| `Text.DecimalRoundTrip` | src/main.rs:175-180 | the printed digits read back as the number |
| `Text.DigitRun` | src/main.rs:175-180 | a run of digits followed by a non-digit is read off a text in only one way |
| `Git.Execute` | src/main.rs:68-92 | `Ok` exactly when git succeeds; `Ok` carries the trimmed standard output and `Err` the trimmed standard error |
| `Branches.Format` | src/main.rs:41 | the listed line is the age, a tab and the name; when the age has no tab, the first tab of the line is the one right after the age |
| `Branches.ParseLine` | src/main.rs:58-64 | a line gives no record exactly when it has no tab; otherwise the record's age, a tab and its name rebuild the line, and the age holds no tab (the name may hold later tabs) |
| `Branches.ParseFormat` | src/main.rs:58-64 | a branch whose age has no tab parses back from its listed line |
| `Branches.ParseLines` | src/main.rs:56-65 | never more records than lines |
| `Branches.ParseSingle` | src/main.rs:56-65 | one line yields one record if it has a tab and none otherwise |
| `Branches.ParseLinesAppend` | src/main.rs:56-65 | parsing concatenated listings concatenates the records, so line order is kept |
| `Branches.ParseLinesMembers` | src/main.rs:56-65 | a record is in the result exactly when some input line parses to it |
| `Branches.ParseLinesCount` | src/main.rs:56-65 | no line is dropped exactly when every line has a tab |
| `Branches.LocalBranches` | src/main.rs:47-65 | a failed listing gives its standard error and nothing else; a successful one gives at most one record per output line |
| `Branches.LocalBranchesOfListing` | src/main.rs:36-66 | branches listed one per line, with ages free of tabs and newlines and names free of newlines and trailing `\r`, are read back exactly and in order |
| `Branches.ParseAll` | src/main.rs:58-64 | parsing the listed lines of branches with tab-free ages gives the branches back |
| `Branches.WithoutDefault` | src/main.rs:104-107 | a branch survives exactly when it was listed and its name is not the default; nothing is dropped when there is no default; never more branches than before |
| `Branches.WithoutDefaultAppend` | src/main.rs:104-107 | the filter works piecewise, so survivors keep their relative order |
| `Branches.WithoutDefaultAbsent` | src/main.rs:104-107 | when no branch has the default name the list is unchanged |
| `Branches.FirstUnrejected` | src/main.rs:23-31 | the index of the first candidate git does not reject; every earlier one was rejected |
| `Branches.FirstVerified` | src/main.rs:23-33 | the fallback yields the first candidate git does not reject, if git accepts it, and otherwise nothing; a check git cannot start ends the search with nothing |
| `Branches.DefaultBranch` | src/main.rs:11-34 | nothing if git cannot start. If `origin/HEAD` resolves, the name after `refs/remotes/origin/` in the trimmed output, and nothing when that prefix is absent. Otherwise `main` exactly when `main` verifies; `master` exactly when `main` is rejected and `master` verifies; never any other name |
| `Messages.KeptLines` | src/main.rs:147-150 | a line is kept exactly when it was there and does not start with `hint:`; never more lines than before |
| `Messages.KeptLinesAppend` | src/main.rs:147-150 | the filter works piecewise, so kept lines stay in order |
| `Messages.StripHints` | src/main.rs:147-152 | the message, split at `\n`, holds no hint line and is exactly the non-hint lines of the error text, in order; it is empty when every line was a hint |
| `Messages.NoHintsUnchanged` | src/main.rs:147-151 | an error text without hints, `\r` or a final newline is shown unchanged |
| `Messages.KeptAll` | src/main.rs:147-150 | the filter keeps a list of non-hint lines whole |
| `Messages.PluralSuffix` | src/main.rs:178 | the suffix is empty exactly when one branch was deleted, and `es` otherwise |
| `Messages.SummaryCounts` | src/main.rs:175-180 | the summary line gives back both counts: two summaries are equal only for equal deleted and skipped counts |
| `Disposition.ClassifyLine` | src/main.rs:94-100 | after `trim` and lowercasing, a line is `y` exactly when it trims to `y` or `Y`, `q` exactly when it trims to `q` or `Q`, and `?` exactly when it trims to `?` |
| `Disposition.AnswersAt` | src/main.rs:94-100 | the k-th answer is the k-th input line, normalised and classified |
| `Disposition.Normalize` | src/main.rs:99 | the normalised answer is never longer than the line, and it is empty exactly when the line is only whitespace |
| `Disposition.Prompt` | src/main.rs:94-100 | past the end of the input the answer is empty; at any position, what `prompt` returns classifies as the answer the loop's specification reads there |
| `Disposition.SuccessesAppend` | src/main.rs:141-162 | the successful commands of two runs add up |
| `Disposition.TryDelete` | src/main.rs:141-164 | the `y` arm. It always issues the safe delete of this branch first, and a forced delete of the same branch exactly when git refuses the safe one and the retry answer is `y`. There is one report per command: git's trimmed output for a removal, the trimmed standard error as `Refused` for the refused safe delete and as `ForceRefused` for a refused force delete. A successful safe delete reads no answer; a refused one reads exactly one (none past the end of the input). At most one command succeeds, and the branch counts as deleted exactly when one did |
| `Disposition.Line` | src/main.rs:143-166 | a removal shows git's output indented; a refused safe delete shows `Failed:` and a message with no `hint:` line; a refused force delete shows `Force-delete failed:` and git's error unfiltered; a quit shows `Quit.` |
| `Disposition.ShownLines` | src/main.rs:141-164 | the lines the `y` arm prints: the indented trimmed output of a successful delete, `Failed:` with the trimmed error minus its hints for a refused safe delete, and `Force-delete failed:` with the trimmed error of a refused force delete |
| `Disposition.RunFrom` | src/main.rs:119-173 | the loop from any branch stops at or after it and never past the last branch; the counters only grow and commands, reports and prompts are only appended |
| `Disposition.Dispatch` | src/main.rs:140-172 | the answer for the offered branch stops the loop there exactly when it is `q`; otherwise the loop goes on, only growing the counters and appending commands, reports and prompts |
| `Disposition.Run` | src/main.rs:114-173 | a run never stops past the last branch, and with no branches it does nothing |
| `Disposition.RunFromHelp` | src/main.rs:120-136 | `?` offers the same branch again and changes only the prompts shown |
| `Disposition.RunFromAnswer` | src/main.rs:119-140 | any other answer is dispatched for the branch just offered |
| `Disposition.DispatchYes` | src/main.rs:141-164 | after `y`, the loop continues with the next branch. `deleted` has grown by the attempt's outcome, and the attempt's commands and reports are appended; `skipped` is unchanged |
| `Disposition.DispatchOther` | src/main.rs:169-171 | any answer but `y`, `q` and `?` adds one to `skipped`, issues no command and moves to the next branch |
| `Disposition.SoundPrompt` | src/main.rs:119-127 | showing the prompt keeps the loop invariant |
| `Disposition.SoundDelete` | src/main.rs:141-164 | handling `y` for the current branch keeps the loop invariant for one more branch |
| `Disposition.SoundSkip` | src/main.rs:169-171 | a skip keeps the loop invariant for one more branch |
| `Disposition.RunFromSound` | src/main.rs:119-173 | the loop invariant holds where the loop stops. It says: `deleted + skipped` is at most the branches dealt with, and these are at most all branches. `deleted` is the number of successful commands. Every command names a branch already offered. Prompts show positions in order, between 1 and the total, and cover every branch dealt with |
| `Disposition.DispatchSound` | src/main.rs:140-172 | the loop invariant survives every answer for the current branch |
| `Disposition.YesSound` | src/main.rs:141-164 | the loop invariant survives `y` and the rest of the loop |
| `Disposition.RunFromQuit` | src/main.rs:165-168 | the loop ends before the last branch only right after a `q`. The last prompt was for the branch where it stopped, and the last report is the quit notice |
| `Disposition.DispatchQuit` | src/main.rs:165-168 | an early stop follows a `q` for the branch just offered |
| `Disposition.RunSound` | src/main.rs:114-173 | over a whole run: the loop invariant above, with every displayed position between 1 and the total and an early stop only after `q` |
| `Disposition.HelpReprompts` | src/main.rs:120-138 | any number of `?` answers offer the same branch again each time; counters, commands and reports are unchanged |
| `Disposition.AnswerAfterHelps` | src/main.rs:120-140 | after n times `?`, the first other answer decides the branch, which by then has been offered n + 1 times |
| `Disposition.QuitStops` | src/main.rs:120-168 | `q` after any number of `?` ends the run at the offered branch: nothing is counted, no command is issued, and only the prompts shown and `Quit.` are added |
| `Disposition.EndOfInputSkips` | src/main.rs:97-99 | once the input is used up, every remaining branch is offered once and skipped, and the loop runs to the end |
| `Disposition.Ask` | src/main.rs:120-138 | the prompt loop reads answers until one is not `?`. All earlier ones were `?`. It returns that answer and the next read position |
| `Disposition.Remove` | src/main.rs:141-164 | the imperative `y` arm does what `TryDelete` describes |
| `Disposition.Dispose` | src/main.rs:114-173 | the loop of `main` computes `Run`. Its results satisfy the loop invariant: the counters are bounded by the branches dealt with, `deleted` counts successful commands, every command targets an offered branch, and every displayed position is between 1 and the total |
| `Program.Candidates` | src/main.rs:103-107 | a branch is offered exactly when it was listed and its name is not the resolved default |
| `Program.DefaultNeverDeleted` | src/main.rs:103-107 | no removal command ever names the default branch |
| `Program.Prune` | src/main.rs:102-181 | a failed listing ends the run with its error, and only then. "No branches to delete." exactly when nothing is left after the filter. Otherwise the loop runs as `Run` over the filtered branches. Then the summary matches the counters, no command names the default branch, and `deleted + skipped` is at most the branches dealt with |
| `Scenarios.DeleteThenSkip` | src/main.rs:119-173 | branches `feature-x` and `old-stuff` with answers `y` then `n`: one deletion, one skip, and a single safe delete of `feature-x` |
| `Scenarios.ForceAfterRefusal` | src/main.rs:141-164 | a refused safe delete and then `y` with a successful force delete: both commands are issued and `deleted` is 1, not 2 |
| `Scenarios.HelpThenQuit` | src/main.rs:120-168 | `?` then `Q`: the first branch is offered twice, then the run stops there with nothing deleted or skipped |
| `Scenarios.SummaryOne` | src/main.rs:175-180 | one deletion and one skip print `Deleted 1 branch, skipped 1.` |
| `Scenarios.SummaryNone` | src/main.rs:175-180 | no deletion prints `Deleted 0 branches` |
| `Scenarios.SummaryMany` | src/main.rs:175-180 | two deletions print `Deleted 2 branches` |

## Left out

- Starting `git` and the child processes themselves are not modelled. Their
  results are inputs (`ProcessOutput`, `Probe`, `Oracle`). The `Oracle`
  answers by command alone, so a command repeated within one run gets the
  same answer. The program never repeats one, because branch names are
  unique.
- The panics are not modelled: `.expect("failed to run git")` on the
  listing and removal commands, and `unwrap` on flushing stdout and reading
  stdin. A spawn failure is modelled only in `default_branch`, where the
  source handles it with `.ok()?`.
- `process::exit(1)` after a failed listing is the `ListingFailed` outcome
  of `Prune`. The `eprintln!` text is left out.
- Terminal output is not modelled as text: the ANSI escapes, the prompt
  strings, the help text and the `Force delete?` question. Each main prompt
  is recorded as the index of the branch it shows. Per-branch results are
  recorded as `Report` values. `Line` renders them, with the hint filter on
  refusals.
- `String::from_utf8_lossy`: strings are sequences of characters that are
  already decoded.
- `Text.Lower` maps only `A`–`Z`. Rust's `to_lowercase` also maps other
  letters. Only `Y` and `Q` lowercase to `y` and `q`, so the answer the loop
  sees is the same.
- `Disposition.Dispose`: the two `u32` counters are unbounded integers. No
  wrap-around or overflow panic is modelled. `deleted + skipped` is proved
  to stay at most the number of branches. So the counters cannot overflow
  as long as the number of branches fits in a `u32`; the model does not
  bound the length of the listing.
- The `f` force-delete shortcut and the "No branches found." message are not
  in this program. Only `y`, `q`, `?` and other answers exist, and an empty
  list prints "No branches to delete.".
