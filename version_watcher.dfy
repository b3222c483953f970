/** The merge-forward orchestrator: switch to the base branch, guard the scope of
    the change, set the bot identity, then merge the change forward into each
    target branch in turn, carrying the commit to merge from one branch to the next. */
module VersionWatcher {
  import opened Git

  const BotName := "Version Watcher Bot"
  const BotEmail := "version-watcher-bot@spiderstrategies.com"

  /** The action's options. `mergeTargets` is the ordered target list of the
      configuration data (`configData.mergeTargets`). */
  datatype Options = Options(
    baseBranch: string,
    before: string,
    headCommitId: string,
    dryRun: bool,
    versionFile: string,
    mergeTargets: seq<string>)

  /** Why a run ended early without failing. */
  datatype Skip = BaseBranchGone | MultipleFilesChanged

  /** Why a run failed: conflicts reported through `setFailed`, or an executor
      error that escaped the run. */
  datatype Failure =
    | Conflicts(base: string, target: string, listing: string)
    | CommandFailed(command: Command)

  datatype Outcome = Done | AbortedGracefully(skip: Skip) | AbortedWithFailure(failure: Failure)

  /** `filesChanged > 1`, with the trimmed output of `wc -l` read as a decimal count
      (an output that is not a digit string is never greater than one). */
  predicate MoreThanOne(output: string)
  {
    IsDecimal(output) && DecimalValue(output) > 1
  }

  predicate IsDecimal(s: string)
  {
    forall k :: 0 <= k < |s| ==> '0' <= s[k] <= '9'
  }

  function DecimalValue(s: string): nat
    requires IsDecimal(s)
    decreases |s|
  {
    if s == [] then 0 else 10 * DecimalValue(s[..|s| - 1]) + (s[|s| - 1] as int - '0' as int)
  }

  /** `head_commit.id.substring(0, 7)`. */
  function ShortSha(id: string): string
  {
    if |id| <= 7 then id else id[..7]
  }

  function CommitMessage(base: string, head: string, branch: string): string
  {
    "merged " + base + " (" + ShortSha(head) + ") version.properties bump into " + branch
  }

  // ---------------------------------------------------------------------------
  // The run as functions of the oracle and the history before each part.
  // Each returns the whole history after it: `h` followed by what it issued.

  /** A part of the run: the history after it; `threw` says that the last
      command issued failed and the error propagated; `value` is the output the
      part hands on when it did not throw. */
  datatype Phase = Phase(log: seq<Command>, threw: bool, value: string)

  /** How one merge-forward step ended. */
  datatype Step = Advanced(next: string) | Conflicted(listing: string) | Threw(command: Command)

  datatype Iter = Iter(step: Step, log: seq<Command>)

  /** A run (or its remaining part): the outcome, the history after it, and the
      index of the target being processed when it ended (the target count if Done). */
  datatype Run = Run(outcome: Outcome, log: seq<Command>, stoppedAt: nat)

  /** Awaiting `exec` on each of `cmds` in turn after `h`: the commands are issued
      in order until one throws, which ends the part; `value` is the output of the
      last command. */
  function Issue(o: Oracle, h: seq<Command>, cmds: seq<Command>): (p: Phase)
    ensures |h| <= |p.log| <= |h| + |cmds| && p.log == h + cmds[..|p.log| - |h|]
    ensures cmds != [] ==> |h| < |p.log|
    ensures !p.threw ==> p.log == h + cmds
    decreases |cmds|
  {
    if cmds == [] then Phase(h, false, "") else
    var r := Respond(o, h, cmds[0]);
    var h1 := h + [cmds[0]];
    if r.Failed? then Phase(h1, true, "")
    else if |cmds| == 1 then Phase(h1, false, r.output)
    else Issue(o, h1, cmds[1..])
  }

  /** A part that did not throw hands on the output its last command gave. */
  lemma {:induction false} IssueValue(o: Oracle, h: seq<Command>, cmds: seq<Command>)
    ensures var p := Issue(o, h, cmds);
      !p.threw && cmds != [] ==> Respond(o, h + cmds[..|cmds| - 1], cmds[|cmds| - 1]) == Ok(p.value)
    decreases |cmds|
  {
    if cmds == [] || Respond(o, h, cmds[0]).Failed? {
    } else if |cmds| == 1 {
      assert h + cmds[..0] == h;
    } else {
      var h1 := h + [cmds[0]];
      var rest := cmds[1..];
      IssueValue(o, h1, rest);
      assert h1 + rest[..|rest| - 1] == h + cmds[..|cmds| - 1];
    }
  }

  /** A part that threw ends with the command that failed. */
  lemma {:induction false} IssueFailure(o: Oracle, h: seq<Command>, cmds: seq<Command>)
    ensures var p := Issue(o, h, cmds);
      p.threw ==> |h| < |p.log| && Respond(o, p.log[..|p.log| - 1], p.log[|p.log| - 1]).Failed?
    decreases |cmds|
  {
    if cmds != [] && Respond(o, h, cmds[0]).Ok? && |cmds| > 1 {
      IssueFailure(o, h + [cmds[0]], cmds[1..]);
    }
  }

  /** Every command issued before the last one was answered without failure (and the
      last one too when nothing threw): a part stops at its first failing command. */
  lemma {:induction false} IssueOkBefore(o: Oracle, h: seq<Command>, cmds: seq<Command>)
    ensures var p := Issue(o, h, cmds);
      forall k :: 0 <= k < |p.log| - |h| - (if p.threw then 1 else 0) ==> Respond(o, h + cmds[..k], cmds[k]).Ok?
    decreases |cmds|
  {
    if cmds != [] && Respond(o, h, cmds[0]).Ok? && |cmds| > 1 {
      var h1 := h + [cmds[0]];
      var rest := cmds[1..];
      IssueOkBefore(o, h1, rest);
      assert h + cmds[..0] == h;
      forall k | 1 <= k < |cmds|
        ensures h1 + rest[..k - 1] == h + cmds[..k] && rest[k - 1] == cmds[k]
      {
        assert cmds[..k] == [cmds[0]] + rest[..k - 1];
      }
    } else if cmds != [] {
      assert h + cmds[..0] == h;
    }
  }

  /** `Issue` on a command list split as its first command and the rest. */
  lemma IssueCons(o: Oracle, h: seq<Command>, c: Command, rest: seq<Command>)
    ensures Issue(o, h, [c] + rest)
         == if Respond(o, h, c).Failed? then Phase(h + [c], true, "")
            else if rest == [] then Phase(h + [c], false, Respond(o, h, c).output)
            else Issue(o, h + [c], rest)
  {
    assert ([c] + rest)[1..] == rest;
  }

  /** `switchToBranch`: the prune-fetch, then the forced checkout. */
  function SwitchSpec(o: Oracle, h: seq<Command>, branch: string): Phase
  {
    Issue(o, h, [Fetch(branch), ForceCheckout(branch)])
  }

  /** The merge without commit; its failure is swallowed, and only the `git status`
      issued on that path can throw. */
  function MergeSpec(o: Oracle, h: seq<Command>, cursor: string): Phase
  {
    var h1 := h + [Merge(cursor)];
    if Respond(o, h, Merge(cursor)).Ok? then Phase(h1, false, "") else
    Phase(h1 + [Status], Respond(o, h1, Status).Failed?, "")
  }

  /** Keep our version file, stage it, and list the paths still in conflict (the
      value handed on). */
  function ResolveSpec(o: Oracle, h: seq<Command>, versionFile: string): Phase
  {
    Issue(o, h, [CheckoutOurs(versionFile), Add(versionFile), ListConflicts])
  }

  /** Commit, push, read the new head (the value handed on) and reset. */
  function PublishSpec(o: Oracle, h: seq<Command>, message: string): Phase
  {
    var p := Issue(o, h, [Commit(message), Push, RevParseHead]);
    if p.threw then p else
    var q := Issue(o, p.log, [ResetHard]);
    Phase(q.log, q.threw, p.value)
  }

  /** The two identity commands. */
  function IdentitySpec(o: Oracle, h: seq<Command>): Phase
  {
    Issue(o, h, [SetUserEmail(BotEmail), SetUserName(BotName)])
  }

  /** One pass of the loop body for target `branch`, merging `cursor`. */
  function IterationSpec(o: Oracle, opts: Options, h: seq<Command>, branch: string, cursor: string): Iter
  {
    var sw := SwitchSpec(o, h, branch);
    if sw.threw then Iter(Threw(sw.log[|sw.log| - 1]), sw.log) else
    var mg := MergeSpec(o, sw.log, cursor);
    if mg.threw then Iter(Threw(Status), mg.log) else
    var rs := ResolveSpec(o, mg.log, opts.versionFile);
    if rs.threw then Iter(Threw(rs.log[|rs.log| - 1]), rs.log) else
    if |rs.value| > 0 then Iter(Conflicted(rs.value), rs.log) else
    var pb := PublishSpec(o, rs.log, CommitMessage(opts.baseBranch, opts.headCommitId, branch));
    if pb.threw then Iter(Threw(pb.log[|pb.log| - 1]), pb.log) else
    Iter(Advanced(pb.value), pb.log)
  }

  /** A loop pass as a value: given the history, the target and the cursor, how
      the pass ends and the history after it. */
  type Pass = (seq<Command>, string, string) -> Iter

  /** The loop body of `runAction` with this oracle and these options. */
  function PassOf(o: Oracle, opts: Options): Pass
  {
    (h: seq<Command>, branch: string, cursor: string) => IterationSpec(o, opts, h, branch, cursor)
  }

  /** The loop over the targets from index `i` on, with `cursor` to merge next,
      each target handled by `pass`. */
  function LoopFrom(pass: Pass, opts: Options, h: seq<Command>, i: nat, cursor: string): Run
    decreases |opts.mergeTargets| - i
  {
    if |opts.mergeTargets| <= i then Run(Done, h, i) else
    var branch := opts.mergeTargets[i];
    var it := pass(h, branch, cursor);
    match it.step
    case Threw(c) => Run(AbortedWithFailure(CommandFailed(c)), it.log, i)
    case Conflicted(listing) => Run(AbortedWithFailure(Conflicts(opts.baseBranch, branch, listing)), it.log, i)
    case Advanced(next) => LoopFrom(pass, opts, it.log, i + 1, next)
  }

  /** One pass of the loop: the run from target `i` is the outcome of pass `i`,
      or, when it advanced, the run from target `i + 1` with its new cursor. */
  lemma LoopStep(pass: Pass, opts: Options, h: seq<Command>, i: nat, cursor: string, it: Iter)
    requires i < |opts.mergeTargets|
    requires it == pass(h, opts.mergeTargets[i], cursor)
    ensures it.step.Threw? ==>
      LoopFrom(pass, opts, h, i, cursor) == Run(AbortedWithFailure(CommandFailed(it.step.command)), it.log, i)
    ensures it.step.Conflicted? ==>
      LoopFrom(pass, opts, h, i, cursor)
        == Run(AbortedWithFailure(Conflicts(opts.baseBranch, opts.mergeTargets[i], it.step.listing)), it.log, i)
    ensures it.step.Advanced? ==>
      LoopFrom(pass, opts, h, i, cursor) == LoopFrom(pass, opts, it.log, i + 1, it.step.next)
  {
  }

  /** How the part of the run before the loop ended: it proceeds to the loop, or
      the run ends there with `outcome`. */
  datatype Start = Proceed(log: seq<Command>) | Quit(outcome: Outcome, log: seq<Command>)

  /** The part of the run before the loop: the base switch, the scope guard and,
      unless this is a dry run, the bot identity. */
  function StartSpec(o: Oracle, opts: Options, h: seq<Command>): Start
  {
    var base := SwitchSpec(o, h, opts.baseBranch);
    if base.threw then Quit(AbortedGracefully(BaseBranchGone), base.log) else
    var diff := CountChangedFiles(opts.before, opts.headCommitId);
    var count := Respond(o, base.log, diff);
    var h1 := base.log + [diff];
    if count.Failed? then Quit(AbortedWithFailure(CommandFailed(diff)), h1) else
    if MoreThanOne(count.output) then Quit(AbortedGracefully(MultipleFilesChanged), h1) else
    var id := if opts.dryRun then Phase(h1, false, "") else IdentitySpec(o, h1);
    if id.threw then Quit(AbortedWithFailure(CommandFailed(id.log[|id.log| - 1])), id.log) else
    Proceed(id.log)
  }

  /** The whole run after history `h`. */
  function RunSpec(o: Oracle, opts: Options, h: seq<Command>): Run
  {
    match StartSpec(o, opts, h)
    case Quit(outcome, log) => Run(outcome, log, 0)
    case Proceed(log) => LoopFrom(PassOf(o, opts), opts, log, 0, opts.headCommitId)
  }

  // ---------------------------------------------------------------------------
  // The action itself.

  class VersionWatcherAction {
    const options: Options
    const oracle: Oracle
    /** Every command issued through `exec` so far, in order. */
    var log: seq<Command>

    constructor (options: Options, oracle: Oracle)
      ensures this.options == options && this.oracle == oracle && log == []
    {
      this.options := options;
      this.oracle := oracle;
      log := [];
    }

    /** `this.exec`: issue one command and record it. */
    method Exec(command: Command) returns (r: ExecResult)
      modifies this
      ensures log == old(log) + [command]
      ensures r == Respond(oracle, old(log), command)
    {
      r := oracle(log, command);
      log := log + [command];
    }

    /** Fetch `branch` fresh from the remote and force the local branch onto it;
        `ok` is false when either command threw. */
    method SwitchToBranch(branch: string) returns (ok: bool)
      modifies this
      ensures log == SwitchSpec(oracle, old(log), branch).log
      ensures ok == !SwitchSpec(oracle, old(log), branch).threw
    {
      IssueCons(oracle, log, Fetch(branch), [ForceCheckout(branch)]);
      IssueCons(oracle, log + [Fetch(branch)], ForceCheckout(branch), []);
      var r := Exec(Fetch(branch));
      if r.Failed? {
        return false;
      }
      r := Exec(ForceCheckout(branch));
      ok := r.Ok?;
    }

    method MergeCommit(cursor: string) returns (ok: bool)
      modifies this
      ensures log == MergeSpec(oracle, old(log), cursor).log
      ensures ok == !MergeSpec(oracle, old(log), cursor).threw
    {
      var merged := Exec(Merge(cursor));
      ok := true;
      if merged.Failed? {
        // a failing merge is expected here and swallowed; only the status report can throw
        var status := Exec(Status);
        ok := status.Ok?;
      }
    }

    method ResolveVersionFile() returns (ok: bool, conflicts: string)
      modifies this
      ensures var p := ResolveSpec(oracle, old(log), options.versionFile);
        log == p.log && ok == !p.threw && (ok ==> conflicts == p.value)
    {
      var vf := options.versionFile;
      assert [CheckoutOurs(vf), Add(vf), ListConflicts] == [CheckoutOurs(vf)] + [Add(vf), ListConflicts];
      IssueCons(oracle, log, CheckoutOurs(vf), [Add(vf), ListConflicts]);
      IssueCons(oracle, log + [CheckoutOurs(vf)], Add(vf), [ListConflicts]);
      IssueCons(oracle, log + [CheckoutOurs(vf)] + [Add(vf)], ListConflicts, []);
      conflicts := "";
      var r := Exec(CheckoutOurs(vf));
      if r.Failed? {
        return false, conflicts;
      }
      r := Exec(Add(vf));
      if r.Failed? {
        return false, conflicts;
      }
      r := Exec(ListConflicts);
      if r.Failed? {
        return false, conflicts;
      }
      return true, r.output;
    }

    method Publish(message: string) returns (ok: bool, sha: string)
      modifies this
      ensures var p := PublishSpec(oracle, old(log), message);
        log == p.log && ok == !p.threw && (ok ==> sha == p.value)
    {
      assert [Commit(message), Push, RevParseHead] == [Commit(message)] + [Push, RevParseHead];
      IssueCons(oracle, log, Commit(message), [Push, RevParseHead]);
      IssueCons(oracle, log + [Commit(message)], Push, [RevParseHead]);
      IssueCons(oracle, log + [Commit(message)] + [Push], RevParseHead, []);
      IssueCons(oracle, log + [Commit(message)] + [Push] + [RevParseHead], ResetHard, []);
      sha := "";
      var r := Exec(Commit(message));
      if r.Failed? {
        return false, sha;
      }
      r := Exec(Push);
      if r.Failed? {
        return false, sha;
      }
      r := Exec(RevParseHead);
      if r.Failed? {
        return false, sha;
      }
      sha := r.output;
      r := Exec(ResetHard);
      ok := r.Ok?;
    }

    method SetIdentity() returns (ok: bool)
      modifies this
      ensures log == IdentitySpec(oracle, old(log)).log
      ensures ok == !IdentitySpec(oracle, old(log)).threw
    {
      IssueCons(oracle, log, SetUserEmail(BotEmail), [SetUserName(BotName)]);
      IssueCons(oracle, log + [SetUserEmail(BotEmail)], SetUserName(BotName), []);
      var r := Exec(SetUserEmail(BotEmail));
      if r.Failed? {
        return false;
      }
      r := Exec(SetUserName(BotName));
      ok := r.Ok?;
    }

    /** The loop body for one target: switch, merge `cursor` without committing,
        keep our version file, look for conflicts, then commit, push, read the new
        head and reset. */
    method MergeInto(branch: string, cursor: string) returns (step: Step)
      modifies this
      ensures var it := IterationSpec(oracle, options, old(log), branch, cursor);
        step == it.step && log == it.log
    {
      var ok := SwitchToBranch(branch);
      if !ok {
        return Threw(log[|log| - 1]);
      }
      ok := MergeCommit(cursor);
      if !ok {
        return Threw(Status);
      }
      var conflicts;
      ok, conflicts := ResolveVersionFile();
      if !ok {
        return Threw(log[|log| - 1]);
      }
      if |conflicts| > 0 {
        return Conflicted(conflicts);
      }
      var sha;
      ok, sha := Publish(CommitMessage(options.baseBranch, options.headCommitId, branch));
      if !ok {
        return Threw(log[|log| - 1]);
      }
      step := Advanced(sha);
    }

    /** `runAction`. */
    method RunAction() returns (outcome: Outcome)
      modifies this
      ensures var r := RunSpec(oracle, options, old(log));
        outcome == r.outcome && log == r.log
    {
      var onBase := SwitchToBranch(options.baseBranch);
      if !onBase {
        // the base branch is gone: end without failing
        return AbortedGracefully(BaseBranchGone);
      }
      var diff := CountChangedFiles(options.before, options.headCommitId);
      var filesChanged := Exec(diff);
      if filesChanged.Failed? {
        return AbortedWithFailure(CommandFailed(diff));
      }
      if MoreThanOne(filesChanged.output) {
        return AbortedGracefully(MultipleFilesChanged);
      }
      if !options.dryRun {
        var ok := SetIdentity();
        if !ok {
          return AbortedWithFailure(CommandFailed(log[|log| - 1]));
        }
      }
      outcome := MergeForward();
    }

    /** The loop of `runAction` over the merge targets, carrying the commit to merge. */
    method MergeForward() returns (outcome: Outcome)
      modifies this
      ensures var r := LoopFrom(PassOf(oracle, options), options, old(log), 0, options.headCommitId);
        (outcome, log) == (r.outcome, r.log)
    {
      var targets := options.mergeTargets;
      var commitShaToMerge := options.headCommitId;
      for i := 0 to |targets|
        invariant LoopFrom(PassOf(oracle, options), options, old(log), 0, options.headCommitId)
               == LoopFrom(PassOf(oracle, options), options, log, i, commitShaToMerge)
      {
        ghost var before := log;
        var branch := targets[i];
        var step := MergeInto(branch, commitShaToMerge);
        LoopStep(PassOf(oracle, options), options, before, i, commitShaToMerge, Iter(step, log));
        match step
        case Threw(c) =>
          return AbortedWithFailure(CommandFailed(c));
        case Conflicted(listing) =>
          return AbortedWithFailure(Conflicts(options.baseBranch, branch, listing));
        case Advanced(next) =>
          commitShaToMerge := next;
      }
      return Done;
    }
  }
}
