/** The git commands the version watcher issues, and the executor that runs them.
    The executor is left abstract: an oracle that answers a command, given the
    commands issued before it, with the command's trimmed output or a failure. */
module Git {

  datatype Command =
    | Fetch(branch: string)
    | ForceCheckout(branch: string)
    | CountChangedFiles(before: string, head: string)
    | SetUserEmail(email: string)
    | SetUserName(name: string)
    | Merge(commit: string)
    | Status
    | CheckoutOurs(path: string)
    | Add(path: string)
    | ListConflicts
    | Commit(message: string)
    | Push
    | RevParseHead
    | ResetHard

  /** The exact shell line handed to the executor for a command. */
  function CommandLine(c: Command): string
  {
    match c
    case Fetch(b) => "git fetch --prune origin \"+refs/heads/" + b + ":refs/remotes/origin/" + b + "\""
    case ForceCheckout(b) => "git checkout --force -B " + b + " refs/remotes/origin/" + b
    case CountChangedFiles(before, head) => "git diff " + before + "..." + head + " --name-only | wc -l"
    case SetUserEmail(email) => "git config user.email \"" + email + "\""
    case SetUserName(name) => "git config user.name \"" + name + "\""
    case Merge(commit) => "git merge " + commit + " --no-commit -v"
    case Status => "git status"
    case CheckoutOurs(path) => "git checkout --ours " + path
    case Add(path) => "git add " + path
    case ListConflicts => "git diff --name-only --diff-filter=U"
    case Commit(message) => "git commit -m \"" + message + "\""
    case Push => "git push"
    case RevParseHead => "git rev-parse HEAD"
    case ResetHard => "git reset --hard"
  }

  /** The command lines of a history, in the order they were issued. */
  function Lines(h: seq<Command>): seq<string>
  {
    seq(|h|, k requires 0 <= k < |h| => CommandLine(h[k]))
  }

  /** What one executor call yields: the trimmed output, or a failure (a thrown error). */
  datatype ExecResult = Ok(output: string) | Failed

  /** The executor and the repository behind it, as an oracle: its answer to a
      command, given every command issued before it. */
  type Oracle = (seq<Command>, Command) -> ExecResult

  /** An executor that sees only shell lines, as an oracle: it answers each command
      by its line, given the lines issued before it. Every such executor is an
      `Oracle`, so what holds for every oracle holds for every shell executor. */
  function ShellOracle(shell: (seq<string>, string) -> ExecResult): Oracle
  {
    (h: seq<Command>, c: Command) => shell(Lines(h), CommandLine(c))
  }

  /** The oracle's answer to command `c` issued after history `h`. */
  function Respond(o: Oracle, h: seq<Command>, c: Command): ExecResult
  {
    o(h, c)
  }
}
