/** Optional values, the errors the backup script can raise, and the
    pass/fail outcome of an operation that may raise one of them. */
module Outcomes {

  datatype Option<+T> = None | Some(value: T)

  /** The exceptions that escape the script's functions. */
  datatype Error =
    | ProgramMissing                                        // run: `git` cannot be started, so subprocess.run raises FileNotFoundError
    | GitNotFound                                           // require_git: `git --version` exited non-zero
    | CloneFailed(url: string, branch: string, stderr: string) // backup_repo: `git clone` failed
    | PathConflict(path: string)                            // a non-directory stands where a directory is needed, or the reverse
    | DateOverflow                                          // `now - timedelta(days=keep_days)` left the datetime range

  datatype Outcome = Pass | Fail(error: Error)

  /** The text of the RuntimeError the script itself raises. */
  function Message(e: Error): (m: string)
    requires e.GitNotFound? || e.CloneFailed?
    ensures e.CloneFailed? ==> |m| >= |e.stderr| && m[|m| - |e.stderr|..] == e.stderr
    ensures e.CloneFailed? ==> |m| >= 16 && m[..16] == "Clone failed for"
  {
    match e
    case GitNotFound => "Git not found. Install Git and ensure it's in PATH."
    case CloneFailed(url, branch, stderr) => "Clone failed for " + url + "@" + branch + ":\n" + stderr
  }
}
