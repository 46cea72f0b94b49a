/**
 * The external `git` process, seen only through what it reports back.
 * Every invocation is an oracle input: the model never runs anything.
 */
module Git {

  import opened Wrappers
  import opened Text

  /** What `Command::output()` collects from a finished process. */
  datatype ProcessOutput = ProcessOutput(success: bool, stdout: string, stderr: string)

  /** The two removal commands the program can issue for a branch. */
  datatype Command =
    | SafeDelete(branch: string)   // git branch -d <branch>
    | ForceDelete(branch: string)  // git branch -D <branch>

  /** How git answers each removal command. */
  type Oracle = Command -> ProcessOutput

  /**
   * `delete_branch` / `force_delete_branch`: the trimmed standard output on
   * success, the trimmed standard error on failure.
   */
  function Execute(git: Oracle, c: Command): (r: Result<string, string>)
    ensures r.Ok? <==> git(c).success
    ensures r.Ok? ==> r.value == Trim(git(c).stdout)
    ensures r.Err? ==> r.error == Trim(git(c).stderr)
  {
    var out := git(c);
    if out.success then Ok(Trim(out.stdout)) else Err(Trim(out.stderr))
  }
}
