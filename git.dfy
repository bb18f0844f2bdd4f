/** The git commands the sync scripts run, as a trace, and how each of them comes out.
    The commands themselves are external processes. */
module Git {

  datatype GitCall =
    | RevParse                              // git rev-parse --git-dir
    | AddAll                                // git add .
    | Status                                // git status --porcelain
    | Commit(message: string)               // git commit -m <message>
    | Push(remote: string, branch: string)  // git push <remote> <branch>

  /** The outcome each command would have: whether the working directory is a repository,
      whether `add`, `commit` and `push` succeed, and what `status --porcelain` prints. */
  datatype Repo = Repo(isRepo: bool, addOk: bool, status: string, commitOk: bool, pushOk: bool)
}
