/** What a run of the merge-forward orchestrator does, stated over the history of
    commands it leaves behind and the outcome it reports. */
module VersionWatcherProperties {
  import opened Git
  import opened VersionWatcher

  // ---------------------------------------------------------------------------
  // The command sequences a run is made of.

  /** One target's commands up to and including the conflict check; `mergeFailed`
      says whether the merge failed, so that `git status` was run. */
  function Attempted(opts: Options, branch: string, cursor: string, mergeFailed: bool): seq<Command>
  {
    [Fetch(branch), ForceCheckout(branch), Merge(cursor)]
    + (if mergeFailed then [Status] else [])
    + [CheckoutOurs(opts.versionFile), Add(opts.versionFile), ListConflicts]
  }

  /** The commands of `switchToBranch(branch)`. */
  function SwitchCmds(branch: string): seq<Command>
  {
    [Fetch(branch), ForceCheckout(branch)]
  }

  /** The merge of `cursor`, followed by `git status` when it failed. */
  function MergeCmds(cursor: string, mergeFailed: bool): seq<Command>
  {
    [Merge(cursor)] + (if mergeFailed then [Status] else [])
  }

  /** Keeping our version file, staging it and listing the conflicts. */
  function ResolveCmds(versionFile: string): seq<Command>
  {
    [CheckoutOurs(versionFile), Add(versionFile), ListConflicts]
  }

  /** What follows a clean conflict check: the commit message names the base branch,
      the original head commit (never the cursor) and the target. */
  function Finished(opts: Options, branch: string): seq<Command>
  {
    [Commit(CommitMessage(opts.baseBranch, opts.headCommitId, branch)), Push, RevParseHead, ResetHard]
  }

  /** All commands of a completed merge into `branch`. */
  function Block(opts: Options, branch: string, cursor: string, mergeFailed: bool): seq<Command>
  {
    Attempted(opts, branch, cursor, mergeFailed) + Finished(opts, branch)
  }

  /** The merge one pass attempted: the commit it merged and whether `git merge` failed. */
  datatype Attempt = Attempt(cursor: string, mergeFailed: bool)

  /** Completed merges into the targets from index `i` on, one per attempt. */
  function Blocks(opts: Options, i: nat, attempts: seq<Attempt>): seq<Command>
    requires i + |attempts| <= |opts.mergeTargets|
    decreases |attempts|
  {
    if attempts == [] then []
    else Block(opts, opts.mergeTargets[i], attempts[0].cursor, attempts[0].mergeFailed)
         + Blocks(opts, i + 1, attempts[1..])
  }

  /** The commands before the loop: base switch, scope guard, identity unless dry run. */
  function Preamble(opts: Options): seq<Command>
  {
    [Fetch(opts.baseBranch), ForceCheckout(opts.baseBranch), CountChangedFiles(opts.before, opts.headCommitId)]
    + (if opts.dryRun then [] else [SetUserEmail(BotEmail), SetUserName(BotName)])
  }

  /** Whether the merge into `branch`, after a clean switch, failed. */
  predicate MergeFailed(o: Oracle, h: seq<Command>, branch: string, cursor: string)
  {
    Respond(o, h + SwitchCmds(branch), Merge(cursor)).Failed?
  }

  /** The base switch succeeded and the changed-file count is not above one. */
  predicate PassesScopeGuard(o: Oracle, opts: Options, h: seq<Command>)
  {
    var base := SwitchSpec(o, h, opts.baseBranch);
    var count := Respond(o, base.log, CountChangedFiles(opts.before, opts.headCommitId));
    !base.threw && count.Ok? && !MoreThanOne(count.output)
  }

  /** The run reaches the loop over the targets. */
  predicate EntersLoop(o: Oracle, opts: Options, h: seq<Command>)
  {
    var h1 := SwitchSpec(o, h, opts.baseBranch).log + [CountChangedFiles(opts.before, opts.headCommitId)];
    PassesScopeGuard(o, opts, h) && (opts.dryRun || !IdentitySpec(o, h1).threw)
  }

  // ---------------------------------------------------------------------------
  // Shapes of the parts of a run.

  /** `switchToBranch(b)` issues the prune-fetch of `b`, then (if that succeeded)
      the forced checkout of `b`, and throws exactly when one of them failed. */
  lemma SwitchShape(o: Oracle, h: seq<Command>, b: string)
    ensures var sw := SwitchSpec(o, h, b);
      && (sw.log == h + [Fetch(b)] || sw.log == h + SwitchCmds(b))
      && (!sw.threw ==> sw.log == h + SwitchCmds(b))
      && (sw.threw <==> Respond(o, h, Fetch(b)).Failed? || Respond(o, h + [Fetch(b)], ForceCheckout(b)).Failed?)
  {
    IssueCons(o, h, Fetch(b), [ForceCheckout(b)]);
    IssueCons(o, h + [Fetch(b)], ForceCheckout(b), []);
  }

  /** Extending `h + xs` by a prefix of `ys` gives `h` followed by a prefix of `xs + ys`. */
  lemma PrefixAppend(h: seq<Command>, xs: seq<Command>, ys: seq<Command>, k: nat)
    requires k <= |ys|
    ensures (h + xs) + ys[..k] == h + (xs + ys)[..|xs| + k]
  {
    assert (xs + ys)[..|xs| + k] == xs + ys[..k];
  }

  /** The merge, then `git status` exactly when the merge failed. */
  lemma MergeShape(o: Oracle, h: seq<Command>, cursor: string)
    ensures var mg := MergeSpec(o, h, cursor);
      mg.log == h + MergeCmds(cursor, Respond(o, h, Merge(cursor)).Failed?)
  {
  }

  /** Checkout of ours, add and the conflict listing, up to the first that throws. */
  lemma ResolveShape(o: Oracle, h: seq<Command>, vf: string)
    ensures var rs := ResolveSpec(o, h, vf); var R := ResolveCmds(vf);
      && |h| < |rs.log| <= |h| + 3
      && rs.log == h + R[..|rs.log| - |h|]
      && (!rs.threw ==> rs.log == h + R)
      && (Respond(o, h, CheckoutOurs(vf)).Ok? ==> |h| + 1 < |rs.log|)
  {
    IssueCons(o, h, CheckoutOurs(vf), [Add(vf), ListConflicts]);
  }

  /** Commit, push, rev-parse and reset, up to the first that throws; when none
      throws, the value handed on is the rev-parse answer after the push. */
  lemma PublishShape(o: Oracle, h: seq<Command>, opts: Options, b: string)
    ensures var F := Finished(opts, b);
      var pb := PublishSpec(o, h, CommitMessage(opts.baseBranch, opts.headCommitId, b));
      && |h| < |pb.log| <= |h| + 4
      && pb.log == h + F[..|pb.log| - |h|]
      && (!pb.threw ==> pb.log == h + F && Respond(o, h + F[..2], RevParseHead) == Ok(pb.value))
  {
    var F := Finished(opts, b);
    var C := [F[0], Push, RevParseHead];
    assert C == F[..3] && C[..2] == F[..2];
    var p := Issue(o, h, C);
    IssueValue(o, h, C);
    if !p.threw {
      assert p.log + [ResetHard] == h + F;
    }
  }

  /** What one pass of the loop body does after `h` for target `b` and `cursor`:
      it issues a non-empty prefix of the target's block; if it advances it issued
      the whole block and hands on the answer of its `git rev-parse HEAD`; if it
      stops on conflicts it issued the commands up to the conflict check and the
      listing is non-empty. */
  predicate PassShape(o: Oracle, opts: Options, h: seq<Command>, b: string, cursor: string, it: Iter)
  {
    var mf := MergeFailed(o, h, b, cursor);
    var B := Block(opts, b, cursor, mf);
    && |h| < |it.log| <= |h| + |B|
    && it.log == h + B[..|it.log| - |h|]
    && (it.step.Advanced? ==>
          it.log == h + B && Respond(o, h + B[..|B| - 2], RevParseHead) == Ok(it.step.next))
    && (it.step.Conflicted? ==> it.log == h + Attempted(opts, b, cursor, mf) && it.step.listing != [])
  }

  lemma StopsInSwitch(o: Oracle, opts: Options, h: seq<Command>, b: string, cursor: string)
    requires SwitchSpec(o, h, b).threw
    ensures PassShape(o, opts, h, b, cursor, IterationSpec(o, opts, h, b, cursor))
  {
    var sw := SwitchSpec(o, h, b);
    var B := Block(opts, b, cursor, MergeFailed(o, h, b, cursor));
    var k := |sw.log| - |h|;
    assert B[..k] == SwitchCmds(b)[..k];
  }

  lemma StopsInMerge(o: Oracle, opts: Options, h: seq<Command>, b: string, cursor: string)
    requires !SwitchSpec(o, h, b).threw && MergeSpec(o, SwitchSpec(o, h, b).log, cursor).threw
    ensures PassShape(o, opts, h, b, cursor, IterationSpec(o, opts, h, b, cursor))
  {
    var mf := MergeFailed(o, h, b, cursor);
    var B := Block(opts, b, cursor, mf);
    var S := SwitchCmds(b);
    var M := MergeCmds(cursor, mf);
    MergeShape(o, h + S, cursor);
    assert (h + S) + M == h + (S + M);
    assert B[..|S + M|] == S + M;
  }

  /** What the resolve step issued after the switch and the merge is a prefix of
      the target's block, longer than the switch and the merge. */
  lemma ResolveInBlock(o: Oracle, opts: Options, h: seq<Command>, b: string, cursor: string)
    ensures var mf := MergeFailed(o, h, b, cursor);
      var B := Block(opts, b, cursor, mf);
      var rs := ResolveSpec(o, h + SwitchCmds(b) + MergeCmds(cursor, mf), opts.versionFile);
      && |h| < |rs.log| <= |h| + |B|
      && rs.log == h + B[..|rs.log| - |h|]
  {
    var mf := MergeFailed(o, h, b, cursor);
    var B := Block(opts, b, cursor, mf);
    var SM := SwitchCmds(b) + MergeCmds(cursor, mf);
    var R := ResolveCmds(opts.versionFile);
    var F := Finished(opts, b);
    assert h + SwitchCmds(b) + MergeCmds(cursor, mf) == h + SM;
    var rs := ResolveSpec(o, h + SM, opts.versionFile);
    ResolveShape(o, h + SM, opts.versionFile);
    var k := |rs.log| - |h + SM|;
    PrefixAppend(h, SM, R + F, k);
    assert (R + F)[..k] == R[..k];
    assert B == SM + (R + F);
  }

  lemma StopsInResolve(o: Oracle, opts: Options, h: seq<Command>, b: string, cursor: string)
    requires !SwitchSpec(o, h, b).threw && !MergeSpec(o, SwitchSpec(o, h, b).log, cursor).threw
    requires ResolveSpec(o, MergeSpec(o, SwitchSpec(o, h, b).log, cursor).log, opts.versionFile).threw
    ensures PassShape(o, opts, h, b, cursor, IterationSpec(o, opts, h, b, cursor))
  {
    MergeShape(o, h + SwitchCmds(b), cursor);
    ResolveInBlock(o, opts, h, b, cursor);
  }


  /** Where the commands up to the conflict check end. */
  lemma ResolvedShape(o: Oracle, opts: Options, h: seq<Command>, b: string, cursor: string)
    requires !SwitchSpec(o, h, b).threw && !MergeSpec(o, SwitchSpec(o, h, b).log, cursor).threw
    requires !ResolveSpec(o, MergeSpec(o, SwitchSpec(o, h, b).log, cursor).log, opts.versionFile).threw
    ensures var mg := MergeSpec(o, SwitchSpec(o, h, b).log, cursor);
      ResolveSpec(o, mg.log, opts.versionFile).log == h + Attempted(opts, b, cursor, MergeFailed(o, h, b, cursor))
  {
    var mf := MergeFailed(o, h, b, cursor);
    MergeShape(o, h + SwitchCmds(b), cursor);
    ResolveShape(o, h + SwitchCmds(b) + MergeCmds(cursor, mf), opts.versionFile);
  }

  lemma StopsAtConflict(o: Oracle, opts: Options, h: seq<Command>, b: string, cursor: string)
    requires !SwitchSpec(o, h, b).threw && !MergeSpec(o, SwitchSpec(o, h, b).log, cursor).threw
    requires var rs := ResolveSpec(o, MergeSpec(o, SwitchSpec(o, h, b).log, cursor).log, opts.versionFile);
      !rs.threw && |rs.value| > 0
    ensures PassShape(o, opts, h, b, cursor, IterationSpec(o, opts, h, b, cursor))
  {
    ResolvedShape(o, opts, h, b, cursor);
    var A := Attempted(opts, b, cursor, MergeFailed(o, h, b, cursor));
    assert (A + Finished(opts, b))[..|A|] == A;
  }

  lemma GoesOnToPublish(o: Oracle, opts: Options, h: seq<Command>, b: string, cursor: string)
    requires !SwitchSpec(o, h, b).threw && !MergeSpec(o, SwitchSpec(o, h, b).log, cursor).threw
    requires var rs := ResolveSpec(o, MergeSpec(o, SwitchSpec(o, h, b).log, cursor).log, opts.versionFile);
      !rs.threw && |rs.value| == 0
    ensures PassShape(o, opts, h, b, cursor, IterationSpec(o, opts, h, b, cursor))
  {
    ResolvedShape(o, opts, h, b, cursor);
    var A := Attempted(opts, b, cursor, MergeFailed(o, h, b, cursor));
    var F := Finished(opts, b);
    var pb := PublishSpec(o, h + A, CommitMessage(opts.baseBranch, opts.headCommitId, b));
    PublishShape(o, h + A, opts, b);
    PrefixAppend(h, A, F, |pb.log| - |h + A|);
    PrefixAppend(h, A, F, 2);
  }

  /** Every pass of the loop body has the shape `PassShape` states. */
  lemma IterationShape(o: Oracle, opts: Options, h: seq<Command>, b: string, cursor: string)
    ensures PassShape(o, opts, h, b, cursor, IterationSpec(o, opts, h, b, cursor))
  {
    var sw := SwitchSpec(o, h, b);
    var mg := MergeSpec(o, sw.log, cursor);
    var rs := ResolveSpec(o, mg.log, opts.versionFile);
    if sw.threw {
      StopsInSwitch(o, opts, h, b, cursor);
    } else if mg.threw {
      StopsInMerge(o, opts, h, b, cursor);
    } else if rs.threw {
      StopsInResolve(o, opts, h, b, cursor);
    } else if |rs.value| > 0 {
      StopsAtConflict(o, opts, h, b, cursor);
    } else {
      GoesOnToPublish(o, opts, h, b, cursor);
    }
  }

  /** A pass that got through the merge keeps what the resolve step issued. */
  lemma PassKeepsResolve(o: Oracle, opts: Options, h: seq<Command>, b: string, cursor: string)
    requires !SwitchSpec(o, h, b).threw && !MergeSpec(o, SwitchSpec(o, h, b).log, cursor).threw
    ensures var rs := ResolveSpec(o, MergeSpec(o, SwitchSpec(o, h, b).log, cursor).log, opts.versionFile);
      var it := IterationSpec(o, opts, h, b, cursor);
      |rs.log| <= |it.log| && it.log[..|rs.log|] == rs.log
  {
    var rs := ResolveSpec(o, MergeSpec(o, SwitchSpec(o, h, b).log, cursor).log, opts.versionFile);
    if !rs.threw && |rs.value| == 0 {
      PublishShape(o, rs.log, opts, b);
    }
  }

  /** A history that keeps what the resolve step issued after a swallowed merge
      failure holds the switch, the merge, `git status` and the checkout of ours,
      and then, when that checkout succeeded, the `git add`. */
  lemma ResolvedAfterStatus(o: Oracle, h: seq<Command>, b: string, cursor: string, vf: string, t: seq<Command>)
    requires var rs := ResolveSpec(o, h + [Fetch(b)] + [ForceCheckout(b)] + [Merge(cursor)] + [Status], vf);
      |rs.log| <= |t| && t[..|rs.log|] == rs.log
    ensures && |t| >= |h| + 5
            && t[|h|..|h| + 5] == [Fetch(b), ForceCheckout(b), Merge(cursor), Status, CheckoutOurs(vf)]
            && (Respond(o, t[..|h| + 4], CheckoutOurs(vf)).Ok? ==> |t| >= |h| + 6 && t[|h| + 5] == Add(vf))
  {
    var H := h + [Fetch(b)] + [ForceCheckout(b)] + [Merge(cursor)] + [Status];
    var rs := ResolveSpec(o, H, vf);
    var R := ResolveCmds(vf);
    ResolveShape(o, H, vf);
    var j := |rs.log| - |H|;
    assert rs.log == H + R[..j];
    assert rs.log[|h|..|h| + 5] == [Fetch(b), ForceCheckout(b), Merge(cursor), Status, CheckoutOurs(vf)];
    WithinPrefix(t, rs.log, |h|, |h| + 5);
    WithinPrefix(t, rs.log, 0, |h| + 4);
    assert rs.log[..|h| + 4] == H;
    if Respond(o, H, CheckoutOurs(vf)).Ok? {
      assert j >= 2 && rs.log[|H| + 1] == R[1] == Add(vf);
      WithinPrefix(t, rs.log, |h| + 5, |h| + 6);
      assert rs.log[|h| + 5..|h| + 6] == [Add(vf)];
    }
  }

  /** A slice inside a prefix of `t` is the same slice of that prefix. */
  lemma WithinPrefix(t: seq<Command>, u: seq<Command>, lo: nat, hi: nat)
    requires lo <= hi <= |u| <= |t| && t[..|u|] == u
    ensures t[lo..hi] == u[lo..hi]
  {
    forall k | lo <= k < hi
      ensures t[k] == u[k]
    {
      assert t[..|u|][k] == t[k];
    }
  }

  /** A failing merge is swallowed: after `git status` the pass goes on to keep our
      version file and, when that succeeded, to stage it. */
  lemma MergeFailureIsSwallowed(o: Oracle, opts: Options, h: seq<Command>, b: string, cursor: string)
    requires !SwitchSpec(o, h, b).threw && MergeFailed(o, h, b, cursor)
    requires Respond(o, h + [Fetch(b)] + [ForceCheckout(b)] + [Merge(cursor)], Status).Ok?
    ensures var it := IterationSpec(o, opts, h, b, cursor);
      && |it.log| >= |h| + 5
      && it.log[|h|..|h| + 5] == [Fetch(b), ForceCheckout(b), Merge(cursor), Status, CheckoutOurs(opts.versionFile)]
      && (Respond(o, it.log[..|h| + 4], CheckoutOurs(opts.versionFile)).Ok? ==>
            |it.log| >= |h| + 6 && it.log[|h| + 5] == Add(opts.versionFile))
  {
    assert h + [Fetch(b)] + [ForceCheckout(b)] + [Merge(cursor)] + [Status]
        == h + SwitchCmds(b) + MergeCmds(cursor, true);
    MergeShape(o, h + SwitchCmds(b), cursor);
    PassKeepsResolve(o, opts, h, b, cursor);
    ResolvedAfterStatus(o, h, b, cursor, opts.versionFile, IterationSpec(o, opts, h, b, cursor).log);
  }

  // ---------------------------------------------------------------------------
  // Which answers decide how a pass ends.

  /** What a history segment's answers are checked against: every command except
      a merge succeeded, or every conflict listing came back empty. */
  datatype Rule = MergesAside | EmptyListings

  predicate Obeys(rule: Rule, c: Command, a: ExecResult)
  {
    match rule
    case MergesAside => c.Merge? || a.Ok?
    case EmptyListings => c != ListConflicts || a == Ok("")
  }

  /** Every command of `s`, issued in turn after `h`, got an answer `rule` accepts. */
  predicate Answers(o: Oracle, h: seq<Command>, s: seq<Command>, rule: Rule)
  {
    forall k :: 0 <= k < |s| ==> Obeys(rule, s[k], Respond(o, h + s[..k], s[k]))
  }

  lemma AnswersConcat(o: Oracle, h: seq<Command>, xs: seq<Command>, ys: seq<Command>, rule: Rule)
    ensures Answers(o, h, xs + ys, rule) <==> Answers(o, h, xs, rule) && Answers(o, h + xs, ys, rule)
  {
    var s := xs + ys;
    forall k | 0 <= k < |xs|
      ensures s[..k] == xs[..k] && s[k] == xs[k]
    {
      assert s[..k] == xs[..k];
    }
    forall k | 0 <= k < |ys|
      ensures h + s[..|xs| + k] == (h + xs) + ys[..k] && s[|xs| + k] == ys[k]
    {
      assert s[..|xs| + k] == xs + ys[..k];
    }
    if Answers(o, h, xs, rule) && Answers(o, h + xs, ys, rule) {
      forall k | 0 <= k < |s|
        ensures Obeys(rule, s[k], Respond(o, h + s[..k], s[k]))
      {
        if k >= |xs| {
          var j := k - |xs|;
          assert s[..|xs| + j] == s[..k];
        }
      }
    }
  }

  /** Once the commands of `t` after `h` pass an answer check, the commands of `r`
      after `h` pass it exactly when those after `t` do. */
  lemma AnswersThrough(o: Oracle, h: seq<Command>, t: seq<Command>, r: seq<Command>, rule: Rule)
    requires |h| <= |t| <= |r| && t[..|h|] == h && r[..|t|] == t
    requires Answers(o, h, t[|h|..], rule)
    ensures Answers(o, h, r[|h|..], rule) <==> Answers(o, t, r[|t|..], rule)
  {
    assert r[|h|..] == t[|h|..] + r[|t|..];
    assert h + t[|h|..] == t;
    AnswersConcat(o, h, t[|h|..], r[|t|..], rule);
  }

  /** The history after `h` ends with `c`, which is not a merge and failed. */
  predicate FailedLast(o: Oracle, h: seq<Command>, log: seq<Command>, c: Command)
  {
    |h| < |log| && c == log[|log| - 1] && !c.Merge? && Respond(o, log[..|log| - 1], c).Failed?
  }

  /** A history that ends in such a failure does not pass the merges-aside check. */
  lemma FailedLastBreaks(o: Oracle, h: seq<Command>, log: seq<Command>, c: Command)
    requires FailedLast(o, h, log, c) && log[..|h|] == h
    ensures !Answers(o, h, log[|h|..], MergesAside)
  {
    var s := log[|h|..];
    assert h + s[..|s| - 1] == log[..|log| - 1];
    assert s[|s| - 1] == c;
  }

  /** A part with no merge in it throws exactly when one of its commands failed,
      and then the command it ends with failed. */
  lemma IssueAnswers(o: Oracle, h: seq<Command>, cmds: seq<Command>)
    requires forall k :: 0 <= k < |cmds| ==> !cmds[k].Merge?
    ensures var p := Issue(o, h, cmds);
      && (!p.threw <==> Answers(o, h, cmds, MergesAside))
      && (p.threw ==> FailedLast(o, h, p.log, p.log[|p.log| - 1]))
  {
    var p := Issue(o, h, cmds);
    IssueFailure(o, h, cmds);
    IssueOkBefore(o, h, cmds);
    if p.threw {
      var j := |p.log| - |h| - 1;
      assert p.log[..|p.log| - 1] == h + cmds[..j];
      assert p.log[|p.log| - 1] == cmds[j];
    }
  }

  lemma SwitchAnswers(o: Oracle, h: seq<Command>, b: string)
    ensures var sw := SwitchSpec(o, h, b);
      && (!sw.threw <==> Answers(o, h, SwitchCmds(b), MergesAside))
      && (sw.threw ==> FailedLast(o, h, sw.log, sw.log[|sw.log| - 1]))
  {
    IssueAnswers(o, h, SwitchCmds(b));
  }

  /** The merge's own answer never counts; `git status` after a failed merge does. */
  lemma MergeAnswers(o: Oracle, h: seq<Command>, cursor: string)
    ensures var mg := MergeSpec(o, h, cursor);
      var M := MergeCmds(cursor, Respond(o, h, Merge(cursor)).Failed?);
      && (!mg.threw <==> Answers(o, h, M, MergesAside))
      && (mg.threw ==> FailedLast(o, h, mg.log, Status))
  {
    var M := MergeCmds(cursor, Respond(o, h, Merge(cursor)).Failed?);
    assert h + M[..0] == h;
    if |M| == 2 {
      assert h + M[..1] == h + [Merge(cursor)];
    }
  }

  /** The resolve step throws exactly when one of its commands failed; otherwise
      it hands on the conflict check's answer. */
  lemma ResolveAnswers(o: Oracle, h: seq<Command>, vf: string)
    ensures var rs := ResolveSpec(o, h, vf); var R := ResolveCmds(vf);
      && (!rs.threw <==> Answers(o, h, R, MergesAside))
      && (!rs.threw ==> Respond(o, h + R[..2], ListConflicts) == Ok(rs.value))
      && (rs.threw ==> FailedLast(o, h, rs.log, rs.log[|rs.log| - 1]))
  {
    IssueAnswers(o, h, ResolveCmds(vf));
    IssueValue(o, h, ResolveCmds(vf));
  }

  /** Publishing throws exactly when commit, push, rev-parse or reset failed. */
  lemma PublishAnswers(o: Oracle, h: seq<Command>, opts: Options, b: string)
    ensures var F := Finished(opts, b);
      var pb := PublishSpec(o, h, CommitMessage(opts.baseBranch, opts.headCommitId, b));
      && (!pb.threw <==> Answers(o, h, F, MergesAside))
      && (pb.threw ==> FailedLast(o, h, pb.log, pb.log[|pb.log| - 1]))
  {
    var F := Finished(opts, b);
    var C := [F[0], Push, RevParseHead];
    assert F == C + [ResetHard];
    var p := Issue(o, h, C);
    IssueAnswers(o, h, C);
    AnswersConcat(o, h, C, [ResetHard], MergesAside);
    if !p.threw {
      IssueAnswers(o, p.log, [ResetHard]);
    }
  }

  /** The answers up to the conflict check are those of the switch, the merge and
      the resolve step in turn, and the block's are those and the publishing's. */
  lemma AttemptedAnswers(o: Oracle, opts: Options, h: seq<Command>, b: string, cursor: string)
    ensures var mf := MergeFailed(o, h, b, cursor);
      var A := Attempted(opts, b, cursor, mf);
      var S := SwitchCmds(b); var M := MergeCmds(cursor, mf); var R := ResolveCmds(opts.versionFile);
      && (Answers(o, h, A, MergesAside) <==>
            Answers(o, h, S, MergesAside) && Answers(o, h + S, M, MergesAside) && Answers(o, h + S + M, R, MergesAside))
      && (Answers(o, h, Block(opts, b, cursor, mf), MergesAside) <==>
            Answers(o, h, A, MergesAside) && Answers(o, h + A, Finished(opts, b), MergesAside))
      && h + A[..|A| - 1] == h + S + M + R[..2]
  {
    var mf := MergeFailed(o, h, b, cursor);
    var A := Attempted(opts, b, cursor, mf);
    var S := SwitchCmds(b); var M := MergeCmds(cursor, mf); var R := ResolveCmds(opts.versionFile);
    assert A == (S + M) + R;
    AnswersConcat(o, h, S + M, R, MergesAside);
    AnswersConcat(o, h, S, M, MergesAside);
    assert h + (S + M) == h + S + M;
    AnswersConcat(o, h, A, Finished(opts, b), MergesAside);
    assert A[..|A| - 1] == (S + M) + R[..2];
  }

  /** How the answers decide the end of a pass of the loop body after `h` for
      target `b`: it stops on conflicts exactly when every command up to the
      conflict check except the merge succeeded and the listing is not empty, and
      then reports that listing; it advances exactly when every command of the
      block except the merge succeeded and the listing is empty; when it throws,
      the command it threw on is the last one it issued, and that failed. */
  predicate PassDecided(o: Oracle, opts: Options, h: seq<Command>, b: string, cursor: string, it: Iter)
  {
    var mf := MergeFailed(o, h, b, cursor);
    var A := Attempted(opts, b, cursor, mf);
    var answer := Respond(o, h + A[..|A| - 1], ListConflicts);
    && (it.step.Conflicted? <==> Answers(o, h, A, MergesAside) && answer != Ok(""))
    && (it.step.Conflicted? ==> answer == Ok(it.step.listing))
    && (it.step.Advanced? <==> Answers(o, h, Block(opts, b, cursor, mf), MergesAside) && answer == Ok(""))
    && (it.step.Threw? ==> FailedLast(o, h, it.log, it.step.command))
  }

  lemma DecidedInSwitch(o: Oracle, opts: Options, h: seq<Command>, b: string, cursor: string)
    requires SwitchSpec(o, h, b).threw
    ensures PassDecided(o, opts, h, b, cursor, IterationSpec(o, opts, h, b, cursor))
  {
    SwitchAnswers(o, h, b);
    AttemptedAnswers(o, opts, h, b, cursor);
  }

  lemma DecidedInMerge(o: Oracle, opts: Options, h: seq<Command>, b: string, cursor: string)
    requires !SwitchSpec(o, h, b).threw && MergeSpec(o, SwitchSpec(o, h, b).log, cursor).threw
    ensures PassDecided(o, opts, h, b, cursor, IterationSpec(o, opts, h, b, cursor))
  {
    SwitchAnswers(o, h, b);
    MergeAnswers(o, h + SwitchCmds(b), cursor);
    AttemptedAnswers(o, opts, h, b, cursor);
  }

  lemma DecidedInResolve(o: Oracle, opts: Options, h: seq<Command>, b: string, cursor: string)
    requires !SwitchSpec(o, h, b).threw && !MergeSpec(o, SwitchSpec(o, h, b).log, cursor).threw
    requires ResolveSpec(o, MergeSpec(o, SwitchSpec(o, h, b).log, cursor).log, opts.versionFile).threw
    ensures PassDecided(o, opts, h, b, cursor, IterationSpec(o, opts, h, b, cursor))
  {
    var mf := MergeFailed(o, h, b, cursor);
    SwitchAnswers(o, h, b);
    MergeAnswers(o, h + SwitchCmds(b), cursor);
    MergeShape(o, h + SwitchCmds(b), cursor);
    ResolveAnswers(o, h + SwitchCmds(b) + MergeCmds(cursor, mf), opts.versionFile);
    AttemptedAnswers(o, opts, h, b, cursor);
  }

  lemma DecidedAtCheck(o: Oracle, opts: Options, h: seq<Command>, b: string, cursor: string)
    requires !SwitchSpec(o, h, b).threw && !MergeSpec(o, SwitchSpec(o, h, b).log, cursor).threw
    requires !ResolveSpec(o, MergeSpec(o, SwitchSpec(o, h, b).log, cursor).log, opts.versionFile).threw
    ensures PassDecided(o, opts, h, b, cursor, IterationSpec(o, opts, h, b, cursor))
  {
    var mf := MergeFailed(o, h, b, cursor);
    var A := Attempted(opts, b, cursor, mf);
    SwitchAnswers(o, h, b);
    MergeAnswers(o, h + SwitchCmds(b), cursor);
    MergeShape(o, h + SwitchCmds(b), cursor);
    ResolveAnswers(o, h + SwitchCmds(b) + MergeCmds(cursor, mf), opts.versionFile);
    AttemptedAnswers(o, opts, h, b, cursor);
    ResolvedShape(o, opts, h, b, cursor);
    PublishAnswers(o, h + A, opts, b);
  }

  /** Every pass of the loop body is decided by the answers as `PassDecided` states. */
  lemma IterationDecided(o: Oracle, opts: Options, h: seq<Command>, b: string, cursor: string)
    ensures PassDecided(o, opts, h, b, cursor, IterationSpec(o, opts, h, b, cursor))
  {
    var sw := SwitchSpec(o, h, b);
    var mg := MergeSpec(o, sw.log, cursor);
    if sw.threw {
      DecidedInSwitch(o, opts, h, b, cursor);
    } else if mg.threw {
      DecidedInMerge(o, opts, h, b, cursor);
    } else if ResolveSpec(o, mg.log, opts.versionFile).threw {
      DecidedInResolve(o, opts, h, b, cursor);
    } else {
      DecidedAtCheck(o, opts, h, b, cursor);
    }
  }

  // ---------------------------------------------------------------------------
  // The loop over the targets, for any pass with the shape of the loop body.

  /** Every pass of `pass` has the shape of the loop body and is decided by the
      answers as the loop body's is. */
  ghost predicate Shaped(o: Oracle, opts: Options, pass: Pass)
  {
    forall h: seq<Command>, b: string, cursor: string :: ShapedAt(o, opts, pass, h, b, cursor)
  }

  /** The pass of `pass` after `h` for target `b` and `cursor` has the shape of the
      loop body and is decided by the answers as the loop body's is. */
  ghost predicate ShapedAt(o: Oracle, opts: Options, pass: Pass, h: seq<Command>, b: string, cursor: string)
  {
    PassShape(o, opts, h, b, cursor, pass(h, b, cursor)) && PassDecided(o, opts, h, b, cursor, pass(h, b, cursor))
  }

  lemma UseShaped(o: Oracle, opts: Options, pass: Pass, h: seq<Command>, b: string, cursor: string)
    requires Shaped(o, opts, pass)
    ensures PassShape(o, opts, h, b, cursor, pass(h, b, cursor))
  {
    assert ShapedAt(o, opts, pass, h, b, cursor);
  }

  lemma UseDecided(o: Oracle, opts: Options, pass: Pass, h: seq<Command>, b: string, cursor: string)
    requires Shaped(o, opts, pass)
    ensures PassDecided(o, opts, h, b, cursor, pass(h, b, cursor))
  {
    assert ShapedAt(o, opts, pass, h, b, cursor);
  }

  /** The loop body of `runAction` has that shape and is so decided. */
  lemma LoopBodyShaped(o: Oracle, opts: Options)
    ensures Shaped(o, opts, PassOf(o, opts))
  {
    forall h: seq<Command>, b: string, cursor: string
      ensures ShapedAt(o, opts, PassOf(o, opts), h, b, cursor)
    {
      IterationShape(o, opts, h, b, cursor);
      IterationDecided(o, opts, h, b, cursor);
    }
  }

  /** The loop only extends the history. */
  lemma {:induction false} LoopExtends(o: Oracle, opts: Options, pass: Pass, h: seq<Command>, i: nat, cursor: string)
    requires Shaped(o, opts, pass)
    ensures var r := LoopFrom(pass, opts, h, i, cursor);
      |h| <= |r.log| && r.log[..|h|] == h
    decreases |opts.mergeTargets| - i
  {
    if i < |opts.mergeTargets| {
      var b := opts.mergeTargets[i];
      var it := pass(h, b, cursor);
      UseShaped(o, opts, pass, h, b, cursor);
      if it.step.Advanced? {
        LoopExtends(o, opts, pass, it.log, i + 1, it.step.next);
        var r := LoopFrom(pass, opts, it.log, i + 1, it.step.next);
        assert r.log[..|h|] == r.log[..|it.log|][..|h|];
      }
    }
  }

  /** The loop never ends gracefully, and reports `Done` exactly when it got
      through every target. */
  lemma {:induction false} LoopOutcome(pass: Pass, opts: Options, h: seq<Command>, i: nat, cursor: string)
    requires i <= |opts.mergeTargets|
    ensures var r := LoopFrom(pass, opts, h, i, cursor);
      && i <= r.stoppedAt <= |opts.mergeTargets|
      && !r.outcome.AbortedGracefully?
      && (r.outcome == Done <==> r.stoppedAt == |opts.mergeTargets|)
    decreases |opts.mergeTargets| - i
  {
    if i < |opts.mergeTargets| {
      var it := pass(h, opts.mergeTargets[i], cursor);
      if it.step.Advanced? {
        LoopOutcome(pass, opts, it.log, i + 1, it.step.next);
      }
    }
  }

  /** A history segment holding no identity command. */
  predicate NoIdentity(s: seq<Command>)
  {
    forall c :: c in s ==> !c.SetUserEmail? && !c.SetUserName?
  }

  lemma NoIdentityConcat(s: seq<Command>, t: seq<Command>)
    requires NoIdentity(s) && NoIdentity(t)
    ensures NoIdentity(s + t)
  {
    forall c: Command | c in s + t
      ensures !c.SetUserEmail? && !c.SetUserName?
    {
      assert c in s || c in t;
    }
  }

  /** A block holds no identity command. */
  lemma BlockSetsNoIdentity(opts: Options, b: string, cursor: string, mf: bool)
    ensures NoIdentity(Block(opts, b, cursor, mf))
  {
    var A := Attempted(opts, b, cursor, mf);
    var F := Finished(opts, b);
    assert NoIdentity(A) && NoIdentity(F);
    NoIdentityConcat(A, F);
  }

  /** A pass with the shape of the loop body issues no identity command. */
  lemma PassSetsNoIdentity(o: Oracle, opts: Options, h: seq<Command>, b: string, cursor: string, it: Iter)
    requires PassShape(o, opts, h, b, cursor, it)
    ensures |h| <= |it.log| && NoIdentity(it.log[|h|..])
  {
    var B := Block(opts, b, cursor, MergeFailed(o, h, b, cursor));
    BlockSetsNoIdentity(opts, b, cursor, MergeFailed(o, h, b, cursor));
    assert it.log[|h|..] == B[..|it.log| - |h|];
    forall c: Command | c in it.log[|h|..]
      ensures !c.SetUserEmail? && !c.SetUserName?
    {
      assert c in B;
    }
  }

  /** No identity command is issued inside the loop. */
  lemma {:induction false} LoopSetsNoIdentity(o: Oracle, opts: Options, pass: Pass, h: seq<Command>, i: nat, cursor: string)
    requires Shaped(o, opts, pass)
    ensures var r := LoopFrom(pass, opts, h, i, cursor);
      |h| <= |r.log| && NoIdentity(r.log[|h|..])
    decreases |opts.mergeTargets| - i
  {
    LoopExtends(o, opts, pass, h, i, cursor);
    if i < |opts.mergeTargets| {
      var b := opts.mergeTargets[i];
      var it := pass(h, b, cursor);
      UseShaped(o, opts, pass, h, b, cursor);
      PassSetsNoIdentity(o, opts, h, b, cursor, it);
      if it.step.Advanced? {
        var r := LoopFrom(pass, opts, it.log, i + 1, it.step.next);
        LoopSetsNoIdentity(o, opts, pass, it.log, i + 1, it.step.next);
        LoopExtends(o, opts, pass, it.log, i + 1, it.step.next);
        assert it.log[..|h|] == h;
        assert r.log[|h|..] == it.log[|h|..] + r.log[|it.log|..];
        NoIdentityConcat(it.log[|h|..], r.log[|it.log|..]);
      }
    }
  }

  lemma BlocksCons(opts: Options, i: nat, a: Attempt, rest: seq<Attempt>)
    requires i + 1 + |rest| <= |opts.mergeTargets|
    ensures Blocks(opts, i, [a] + rest) == Block(opts, opts.mergeTargets[i], a.cursor, a.mergeFailed) + Blocks(opts, i + 1, rest)
  {
    assert ([a] + rest)[1..] == rest;
  }

  /** The merges attempted by the loop from target `i` on, one per pass it made. */
  ghost function Attempts(o: Oracle, opts: Options, pass: Pass, h: seq<Command>, i: nat, cursor: string): seq<Attempt>
    decreases |opts.mergeTargets| - i
  {
    if |opts.mergeTargets| <= i then []
    else
      var b := opts.mergeTargets[i];
      var it := pass(h, b, cursor);
      var a := Attempt(cursor, MergeFailed(o, h, b, cursor));
      if it.step.Advanced? then [a] + Attempts(o, opts, pass, it.log, i + 1, it.step.next) else [a]
  }

  /** The loop makes one pass per target up to where it stopped, and the first
      pass merges `cursor`. */
  lemma {:induction false} AttemptsCount(o: Oracle, opts: Options, pass: Pass, h: seq<Command>, i: nat, cursor: string)
    requires i <= |opts.mergeTargets|
    ensures var r := LoopFrom(pass, opts, h, i, cursor); var A := Attempts(o, opts, pass, h, i, cursor);
      && |A| == r.stoppedAt - i + (if r.outcome == Done then 0 else 1)
      && (A != [] ==> A[0].cursor == cursor)
    decreases |opts.mergeTargets| - i
  {
    LoopOutcome(pass, opts, h, i, cursor);
    if i < |opts.mergeTargets| {
      var it := pass(h, opts.mergeTargets[i], cursor);
      if it.step.Advanced? {
        AttemptsCount(o, opts, pass, it.log, i + 1, it.step.next);
      }
    }
  }

  /** A loop that reports `Done` issued one complete block per remaining target, in
      list order. */
  lemma {:induction false} LoopDone(o: Oracle, opts: Options, pass: Pass, h: seq<Command>, i: nat, cursor: string)
    requires Shaped(o, opts, pass) && i <= |opts.mergeTargets|
    ensures var r := LoopFrom(pass, opts, h, i, cursor); var A := Attempts(o, opts, pass, h, i, cursor);
      r.outcome == Done ==>
        && |A| == |opts.mergeTargets| - i
        && r.log == h + Blocks(opts, i, A)
    decreases |opts.mergeTargets| - i
  {
    var r := LoopFrom(pass, opts, h, i, cursor);
    if i < |opts.mergeTargets| && r.outcome == Done {
      var b := opts.mergeTargets[i];
      var it := pass(h, b, cursor);
      UseShaped(o, opts, pass, h, b, cursor);
      var a := Attempt(cursor, MergeFailed(o, h, b, cursor));
      assert it.step.Advanced?;
      LoopDone(o, opts, pass, it.log, i + 1, it.step.next);
      BlocksCons(opts, i, a, Attempts(o, opts, pass, it.log, i + 1, it.step.next));
    }
  }

  /** A loop that stops on conflicts stops at a target K it had reached, reports
      them for the base branch and K with a non-empty listing, and made one pass
      per target up to and including K. */
  lemma {:induction false} LoopConflictReport(o: Oracle, opts: Options, pass: Pass, h: seq<Command>, i: nat, cursor: string)
    requires Shaped(o, opts, pass) && i <= |opts.mergeTargets|
    ensures var r := LoopFrom(pass, opts, h, i, cursor); var K := r.stoppedAt;
      r.outcome.AbortedWithFailure? && r.outcome.failure.Conflicts? ==>
        && i <= K < |opts.mergeTargets|
        && |Attempts(o, opts, pass, h, i, cursor)| == K - i + 1
        && r.outcome.failure == Conflicts(opts.baseBranch, opts.mergeTargets[K], r.outcome.failure.listing)
        && r.outcome.failure.listing != []
    decreases |opts.mergeTargets| - i
  {
    AttemptsCount(o, opts, pass, h, i, cursor);
    LoopOutcome(pass, opts, h, i, cursor);
    if i < |opts.mergeTargets| {
      var b := opts.mergeTargets[i];
      var it := pass(h, b, cursor);
      UseShaped(o, opts, pass, h, b, cursor);
      if it.step.Advanced? {
        LoopConflictReport(o, opts, pass, it.log, i + 1, it.step.next);
      }
    }
  }

  /** How the history of a loop run from target `i` after `h` ends when the run
      `r` stopped on conflicts at target K, given the merges `A` it attempted: one
      complete block for each target before K, then K's commands up to its
      conflict check. */
  predicate ConflictHistory(opts: Options, h: seq<Command>, i: nat, r: Run, A: seq<Attempt>)
  {
    var K := r.stoppedAt;
    && i <= K < |opts.mergeTargets| && |A| == K - i + 1
    && r.log == h + Blocks(opts, i, A[..K - i])
                  + Attempted(opts, opts.mergeTargets[K], A[K - i].cursor, A[K - i].mergeFailed)
  }

  /** A completed block before a history that ends in conflicts. */
  lemma ConflictHistoryCons(opts: Options, h: seq<Command>, hit: seq<Command>, i: nat, a: Attempt, r: Run, rest: seq<Attempt>)
    requires i < |opts.mergeTargets|
    requires hit == h + Block(opts, opts.mergeTargets[i], a.cursor, a.mergeFailed)
    requires ConflictHistory(opts, hit, i + 1, r, rest)
    ensures ConflictHistory(opts, h, i, r, [a] + rest)
  {
    var K := r.stoppedAt;
    var B := Block(opts, opts.mergeTargets[i], a.cursor, a.mergeFailed);
    var X := Blocks(opts, i + 1, rest[..K - (i + 1)]);
    var last := rest[K - (i + 1)];
    var Y := Attempted(opts, opts.mergeTargets[K], last.cursor, last.mergeFailed);
    BlocksCons(opts, i, a, rest[..K - (i + 1)]);
    assert ([a] + rest)[..K - i] == [a] + rest[..K - (i + 1)];
    assert ([a] + rest)[K - i] == last;
    assert r.log == (h + B) + X + Y;
    assert (h + B) + X + Y == h + (B + X) + Y;
  }

  /** A loop that stops on conflicts at target K issued one complete block for each
      target before K, then K's commands up to its conflict check: no commit or
      push for K and nothing for any later target. */
  lemma {:induction false} LoopConflictLog(o: Oracle, opts: Options, pass: Pass, h: seq<Command>, i: nat, cursor: string)
    requires Shaped(o, opts, pass) && i <= |opts.mergeTargets|
    ensures var r := LoopFrom(pass, opts, h, i, cursor);
      r.outcome.AbortedWithFailure? && r.outcome.failure.Conflicts? ==>
        ConflictHistory(opts, h, i, r, Attempts(o, opts, pass, h, i, cursor))
    decreases |opts.mergeTargets| - i
  {
    var r := LoopFrom(pass, opts, h, i, cursor);
    LoopConflictReport(o, opts, pass, h, i, cursor);
    if i < |opts.mergeTargets| && r.outcome.AbortedWithFailure? && r.outcome.failure.Conflicts? {
      var b := opts.mergeTargets[i];
      var it := pass(h, b, cursor);
      UseShaped(o, opts, pass, h, b, cursor);
      var a := Attempt(cursor, MergeFailed(o, h, b, cursor));
      if it.step.Conflicted? {
        assert r.log == h + Blocks(opts, i, []) + Attempted(opts, b, cursor, a.mergeFailed);
      } else {
        assert it.step.Advanced?;
        var rest := Attempts(o, opts, pass, it.log, i + 1, it.step.next);
        var r' := LoopFrom(pass, opts, it.log, i + 1, it.step.next);
        assert Attempts(o, opts, pass, h, i, cursor) == [a] + rest;
        LoopConflictLog(o, opts, pass, it.log, i + 1, it.step.next);
        ConflictHistoryCons(opts, h, it.log, i, a, r', rest);
      }
    }
  }

  /** Each attempted merge after the first merges what `git rev-parse HEAD`
      answered in the previous pass, right after that pass pushed. */
  predicate ChainsCursors(o: Oracle, opts: Options, h: seq<Command>, i: nat, A: seq<Attempt>)
    requires i + |A| <= |opts.mergeTargets|
    decreases |A|
  {
    |A| <= 1 ||
    var B := Block(opts, opts.mergeTargets[i], A[0].cursor, A[0].mergeFailed);
    && Respond(o, h + B[..|B| - 2], RevParseHead) == Ok(A[1].cursor)
    && ChainsCursors(o, opts, h + B, i + 1, A[1..])
  }

  /** The loop merges `cursor` first, then into each target the commit the
      previous target's push produced. */
  lemma {:induction false} LoopChainsCursors(o: Oracle, opts: Options, pass: Pass, h: seq<Command>, i: nat, cursor: string)
    requires Shaped(o, opts, pass) && i <= |opts.mergeTargets|
    ensures var A := Attempts(o, opts, pass, h, i, cursor);
      && i + |A| <= |opts.mergeTargets|
      && (A != [] ==> A[0].cursor == cursor)
      && ChainsCursors(o, opts, h, i, A)
    decreases |opts.mergeTargets| - i
  {
    AttemptsCount(o, opts, pass, h, i, cursor);
    LoopOutcome(pass, opts, h, i, cursor);
    if i < |opts.mergeTargets| {
      var b := opts.mergeTargets[i];
      var it := pass(h, b, cursor);
      if it.step.Advanced? {
        UseShaped(o, opts, pass, h, b, cursor);
        LoopChainsCursors(o, opts, pass, it.log, i + 1, it.step.next);
        var rest := Attempts(o, opts, pass, it.log, i + 1, it.step.next);
        var A := [Attempt(cursor, MergeFailed(o, h, b, cursor))] + rest;
        assert A[1..] == rest;
      }
    }
  }

  /** Where the block's one conflict check sits, and that its listings are empty
      exactly when that check answered with an empty listing. */
  lemma ListingsInBlock(o: Oracle, opts: Options, h: seq<Command>, b: string, cursor: string, mf: bool)
    ensures var A := Attempted(opts, b, cursor, mf);
      && A[|A| - 1] == ListConflicts
      && Answers(o, h, A[..|A| - 1], EmptyListings)
      && (Answers(o, h, Block(opts, b, cursor, mf), EmptyListings) <==>
            Respond(o, h + A[..|A| - 1], ListConflicts) == Ok(""))
  {
    var A := Attempted(opts, b, cursor, mf);
    var P := A[..|A| - 1];
    assert A == P + [ListConflicts];
    forall k | 0 <= k < |P|
      ensures P[k] != ListConflicts
    {
      assert P[k] in P;
    }
    AnswersConcat(o, h, P, [ListConflicts], EmptyListings);
    AnswersConcat(o, h, A, Finished(opts, b), EmptyListings);
    assert (h + P) + [ListConflicts][..0] == h + P;
  }

  /** A history ending in a conflict check has empty listings exactly when the
      ones before it were and that check answered with an empty listing. */
  lemma ListingsAtEnd(o: Oracle, h: seq<Command>, log: seq<Command>)
    requires |h| < |log| && log[..|h|] == h && log[|log| - 1] == ListConflicts
    ensures Answers(o, h, log[|h|..], EmptyListings) <==>
      Answers(o, h, log[|h|..|log| - 1], EmptyListings) && Respond(o, log[..|log| - 1], ListConflicts) == Ok("")
  {
    var P := log[|h|..|log| - 1];
    assert log[|h|..] == P + [ListConflicts];
    assert h + P == log[..|log| - 1];
    AnswersConcat(o, h, P, [ListConflicts], EmptyListings);
    assert (h + P) + [ListConflicts][..0] == h + P;
  }

  /** What the answers say about the history one pass issued after `h`. */
  predicate PassAnswered(o: Oracle, h: seq<Command>, it: Iter)
  {
    var s := if |h| <= |it.log| then it.log[|h|..] else [];
    && |h| < |it.log| && it.log[..|h|] == h
    && (it.step.Advanced? ==> Answers(o, h, s, MergesAside) && Answers(o, h, s, EmptyListings))
    && (it.step.Conflicted? ==>
          && Answers(o, h, s, MergesAside)
          && it.log[|it.log| - 1] == ListConflicts
          && Respond(o, it.log[..|it.log| - 1], ListConflicts) == Ok(it.step.listing)
          && Answers(o, h, it.log[|h|..|it.log| - 1], EmptyListings))
    && (it.step.Threw? ==> FailedLast(o, h, it.log, it.step.command))
  }

  lemma AnsweredWhenAdvanced(o: Oracle, opts: Options, h: seq<Command>, b: string, cursor: string, it: Iter)
    requires PassShape(o, opts, h, b, cursor, it) && PassDecided(o, opts, h, b, cursor, it)
    requires it.step.Advanced?
    ensures PassAnswered(o, h, it)
  {
    var mf := MergeFailed(o, h, b, cursor);
    ListingsInBlock(o, opts, h, b, cursor, mf);
    assert it.log[|h|..] == Block(opts, b, cursor, mf);
  }

  lemma AnsweredWhenConflicted(o: Oracle, opts: Options, h: seq<Command>, b: string, cursor: string, it: Iter)
    requires PassShape(o, opts, h, b, cursor, it) && PassDecided(o, opts, h, b, cursor, it)
    requires it.step.Conflicted?
    ensures PassAnswered(o, h, it)
  {
    var mf := MergeFailed(o, h, b, cursor);
    var A := Attempted(opts, b, cursor, mf);
    ListingsInBlock(o, opts, h, b, cursor, mf);
    EndsWithCheck(h, A, it.log);
  }

  /** Every pass of a pass function with the shape of the loop body is so answered. */
  lemma UseAnswered(o: Oracle, opts: Options, pass: Pass, h: seq<Command>, b: string, cursor: string)
    requires Shaped(o, opts, pass)
    ensures PassAnswered(o, h, pass(h, b, cursor))
  {
    var it := pass(h, b, cursor);
    UseShaped(o, opts, pass, h, b, cursor);
    UseDecided(o, opts, pass, h, b, cursor);
    if it.step.Advanced? {
      AnsweredWhenAdvanced(o, opts, h, b, cursor, it);
    } else if it.step.Conflicted? {
      AnsweredWhenConflicted(o, opts, h, b, cursor, it);
    }
  }

  /** A history that is `h` followed by `A` ends with `A`'s last command. */
  lemma EndsWithCheck(h: seq<Command>, A: seq<Command>, log: seq<Command>)
    requires log == h + A && A != []
    ensures log[|h|..] == A && log[..|log| - 1] == h + A[..|A| - 1] && log[|h|..|log| - 1] == A[..|A| - 1]
  {
  }

  /** A loop that fails on a command names the last command it issued, which is
      not a merge and failed. */
  lemma {:induction false} LoopFailureNamesLast(o: Oracle, opts: Options, pass: Pass, h: seq<Command>, i: nat, cursor: string)
    requires Shaped(o, opts, pass)
    ensures var r := LoopFrom(pass, opts, h, i, cursor);
      r.outcome.AbortedWithFailure? && r.outcome.failure.CommandFailed? ==>
        FailedLast(o, h, r.log, r.outcome.failure.command)
    decreases |opts.mergeTargets| - i
  {
    if i < |opts.mergeTargets| {
      var b := opts.mergeTargets[i];
      var it := pass(h, b, cursor);
      UseAnswered(o, opts, pass, h, b, cursor);
      if it.step.Advanced? {
        LoopFailureNamesLast(o, opts, pass, it.log, i + 1, it.step.next);
      }
    }
  }

  /** A loop that reports `Done` got a success for every command except the merges
      and an empty listing from every conflict check. */
  lemma {:induction false} LoopDoneAnswers(o: Oracle, opts: Options, pass: Pass, h: seq<Command>, i: nat, cursor: string)
    requires Shaped(o, opts, pass)
    ensures var r := LoopFrom(pass, opts, h, i, cursor);
      r.outcome == Done ==>
        && |h| <= |r.log|
        && Answers(o, h, r.log[|h|..], MergesAside)
        && Answers(o, h, r.log[|h|..], EmptyListings)
    decreases |opts.mergeTargets| - i
  {
    var r := LoopFrom(pass, opts, h, i, cursor);
    LoopExtends(o, opts, pass, h, i, cursor);
    if i < |opts.mergeTargets| && r.outcome == Done {
      var b := opts.mergeTargets[i];
      var it := pass(h, b, cursor);
      UseAnswered(o, opts, pass, h, b, cursor);
      LoopDoneAnswers(o, opts, pass, it.log, i + 1, it.step.next);
      LoopExtends(o, opts, pass, it.log, i + 1, it.step.next);
      AnswersThrough(o, h, it.log, r.log, MergesAside);
      AnswersThrough(o, h, it.log, r.log, EmptyListings);
    } else if r.outcome == Done {
      assert r.log[|h|..] == [];
    }
  }

  /** A loop that stops on conflicts got a success for every command except the
      merges, ends with the conflict check, reports what that check answered, and
      every conflict check before it answered with an empty listing. */
  lemma {:induction false} LoopConflictAnswers(o: Oracle, opts: Options, pass: Pass, h: seq<Command>, i: nat, cursor: string)
    requires Shaped(o, opts, pass)
    ensures var r := LoopFrom(pass, opts, h, i, cursor);
      r.outcome.AbortedWithFailure? && r.outcome.failure.Conflicts? ==>
        && |h| < |r.log|
        && Answers(o, h, r.log[|h|..], MergesAside)
        && r.log[|r.log| - 1] == ListConflicts
        && Respond(o, r.log[..|r.log| - 1], ListConflicts) == Ok(r.outcome.failure.listing)
        && Answers(o, h, r.log[|h|..|r.log| - 1], EmptyListings)
    decreases |opts.mergeTargets| - i
  {
    var r := LoopFrom(pass, opts, h, i, cursor);
    if i < |opts.mergeTargets| && r.outcome.AbortedWithFailure? && r.outcome.failure.Conflicts? {
      var b := opts.mergeTargets[i];
      var it := pass(h, b, cursor);
      UseAnswered(o, opts, pass, h, b, cursor);
      if it.step.Advanced? {
        LoopConflictAnswers(o, opts, pass, it.log, i + 1, it.step.next);
        LoopExtends(o, opts, pass, it.log, i + 1, it.step.next);
        ConflictAfterBlock(o, h, it.log, r.log);
      }
    }
  }

  /** A completed pass's answer checks carry over to the loop run after it that
      stopped on conflicts. */
  lemma ConflictAfterBlock(o: Oracle, h: seq<Command>, t: seq<Command>, r: seq<Command>)
    requires |h| <= |t| < |r| && t[..|h|] == h && r[..|t|] == t
    requires Answers(o, h, t[|h|..], MergesAside) && Answers(o, h, t[|h|..], EmptyListings)
    requires Answers(o, t, r[|t|..], MergesAside) && Answers(o, t, r[|t|..|r| - 1], EmptyListings)
    ensures Answers(o, h, r[|h|..], MergesAside) && Answers(o, h, r[|h|..|r| - 1], EmptyListings)
  {
    AnswersThrough(o, h, t, r, MergesAside);
    var u := r[..|r| - 1];
    assert u[..|t|] == t;
    assert u[|t|..] == r[|t|..|r| - 1];
    AnswersThrough(o, h, t, u, EmptyListings);
    assert u[|h|..] == r[|h|..|r| - 1];
  }

  /** How the answers after `h` decide the outcome of a run `r` of the loop: `Done`
      exactly when every command issued except the merges succeeded and every
      conflict check came back empty; conflicts exactly when every command except
      the merges succeeded and the run ends with a conflict check that came back
      non-empty after empty ones, the listing reported being that answer; a command
      failure exactly when some command other than a merge failed. */
  predicate DecidedByAnswers(o: Oracle, h: seq<Command>, r: Run)
  {
    |h| <= |r.log| &&
    var s := r.log[|h|..];
    && (r.outcome == Done <==> Answers(o, h, s, MergesAside) && Answers(o, h, s, EmptyListings))
    && (r.outcome.AbortedWithFailure? && r.outcome.failure.Conflicts? <==>
          && Answers(o, h, s, MergesAside)
          && |h| < |r.log| && r.log[|r.log| - 1] == ListConflicts
          && Respond(o, r.log[..|r.log| - 1], ListConflicts) != Ok("")
          && Answers(o, h, r.log[|h|..|r.log| - 1], EmptyListings))
    && (r.outcome.AbortedWithFailure? && r.outcome.failure.Conflicts? ==>
          Respond(o, r.log[..|r.log| - 1], ListConflicts) == Ok(r.outcome.failure.listing))
    && (r.outcome.AbortedWithFailure? && r.outcome.failure.CommandFailed? <==> !Answers(o, h, s, MergesAside))
  }

  /** The loop's outcome is decided by the answers. */
  lemma LoopDecided(o: Oracle, opts: Options, pass: Pass, h: seq<Command>, i: nat, cursor: string)
    requires Shaped(o, opts, pass) && i <= |opts.mergeTargets|
    ensures DecidedByAnswers(o, h, LoopFrom(pass, opts, h, i, cursor))
  {
    var r := LoopFrom(pass, opts, h, i, cursor);
    LoopExtends(o, opts, pass, h, i, cursor);
    LoopOutcome(pass, opts, h, i, cursor);
    LoopFailureNamesLast(o, opts, pass, h, i, cursor);
    LoopDoneAnswers(o, opts, pass, h, i, cursor);
    LoopConflictAnswers(o, opts, pass, h, i, cursor);
    LoopConflictReport(o, opts, pass, h, i, cursor);
    if r.outcome.AbortedWithFailure? && r.outcome.failure.CommandFailed? {
      FailedLastBreaks(o, h, r.log, r.outcome.failure.command);
    }
    if |h| < |r.log| && r.log[|r.log| - 1] == ListConflicts {
      ListingsAtEnd(o, h, r.log);
    }
  }

  // ---------------------------------------------------------------------------
  // The whole run.

  /** The part before the loop proceeds exactly when the run gets past the
      preamble, and then issued the whole preamble; otherwise it issued a
      non-empty prefix of it and the run does not report `Done`. */
  lemma StartShape(o: Oracle, opts: Options, h: seq<Command>)
    ensures var st := StartSpec(o, opts, h); var P := Preamble(opts);
      && (st.Proceed? <==> EntersLoop(o, opts, h))
      && (st.Proceed? ==> st.log == h + P)
      && (st.Quit? ==> |h| < |st.log| <= |h| + |P| && st.log == h + P[..|st.log| - |h|])
      && (st.Quit? ==> st.outcome.AbortedGracefully? || st.outcome.failure.CommandFailed?)
  {
    var P := Preamble(opts);
    var base := SwitchSpec(o, h, opts.baseBranch);
    assert h + [Fetch(opts.baseBranch)] == h + P[..1];
    if !base.threw {
      var h1 := base.log + [CountChangedFiles(opts.before, opts.headCommitId)];
      assert base.log == h + P[..2];
      assert h1 == h + P[..3];
      if !opts.dryRun {
        assert h1 + [SetUserEmail(BotEmail)] == h + P[..4];
        assert h1 + [SetUserEmail(BotEmail)] + [SetUserName(BotName)] == h + P;
      } else {
        assert P[..3] == P;
      }
    }
  }

  /** A run that gets past the preamble is the loop over every target, started
      after the preamble's commands with the head commit as its cursor. */
  lemma RunEntersLoop(o: Oracle, opts: Options, h: seq<Command>)
    ensures EntersLoop(o, opts, h) ==>
      RunSpec(o, opts, h) == LoopFrom(PassOf(o, opts), opts, h + Preamble(opts), 0, opts.headCommitId)
  {
    StartShape(o, opts, h);
  }

  /** The run leaves behind a history that extends `h`. */
  lemma RunExtends(o: Oracle, opts: Options, h: seq<Command>)
    ensures var r := RunSpec(o, opts, h);
      |h| <= |r.log| && r.log[..|h|] == h
  {
    StartShape(o, opts, h);
    if EntersLoop(o, opts, h) {
      LoopBodyShaped(o, opts);
      LoopExtends(o, opts, PassOf(o, opts), h + Preamble(opts), 0, opts.headCommitId);
      var r := RunSpec(o, opts, h);
      assert r.log[..|h|] == r.log[..|h + Preamble(opts)|][..|h|];
    }
  }

  /** Neither merge, commit nor push. */
  predicate PublishesNothing(s: seq<Command>)
  {
    forall k :: 0 <= k < |s| ==> !s[k].Merge? && !s[k].Commit? && !s[k].Push?
  }

  /** The run ends gracefully as "base branch gone" exactly when switching to the
      base branch threw; it then issued the base switch alone, so no merge, commit
      or push, and it reports no failure. */
  lemma BaseBranchGoneEndsGracefully(o: Oracle, opts: Options, h: seq<Command>)
    ensures var r := RunSpec(o, opts, h);
      && (r.outcome == AbortedGracefully(BaseBranchGone) <==> SwitchSpec(o, h, opts.baseBranch).threw)
      && (r.outcome == AbortedGracefully(BaseBranchGone) ==>
            && (r.log == h + [Fetch(opts.baseBranch)] || r.log == h + [Fetch(opts.baseBranch), ForceCheckout(opts.baseBranch)])
            && PublishesNothing(r.log[|h|..]))
  {
    var r := RunSpec(o, opts, h);
    StartShape(o, opts, h);
    if EntersLoop(o, opts, h) {
      LoopOutcome(PassOf(o, opts), opts, h + Preamble(opts), 0, opts.headCommitId);
    }
    if r.outcome == AbortedGracefully(BaseBranchGone) {
      assert r.log[|h|..] == [Fetch(opts.baseBranch)] || r.log[|h|..] == [Fetch(opts.baseBranch), ForceCheckout(opts.baseBranch)];
    }
  }

  /** The run ends gracefully as "multiple files changed" exactly when the base
      switch succeeded and the changed-file count is above one; it then issued the
      base switch and the count alone: no identity and no target switch. */
  lemma ScopeGuardEndsGracefully(o: Oracle, opts: Options, h: seq<Command>)
    ensures var r := RunSpec(o, opts, h);
      var base := SwitchSpec(o, h, opts.baseBranch);
      var count := Respond(o, base.log, CountChangedFiles(opts.before, opts.headCommitId));
      && (r.outcome == AbortedGracefully(MultipleFilesChanged) <==>
            !base.threw && count.Ok? && MoreThanOne(count.output))
      && (r.outcome == AbortedGracefully(MultipleFilesChanged) ==>
            r.log == h + Preamble(opts)[..3])
  {
    var r := RunSpec(o, opts, h);
    StartShape(o, opts, h);
    if EntersLoop(o, opts, h) {
      LoopOutcome(PassOf(o, opts), opts, h + Preamble(opts), 0, opts.headCommitId);
    }
    var P := Preamble(opts);
    assert P[..3] == [Fetch(opts.baseBranch), ForceCheckout(opts.baseBranch), CountChangedFiles(opts.before, opts.headCommitId)];
  }

  // ---------------------------------------------------------------------------
  // What a history publishes.

  /** The commits and pushes of a history, in order. */
  function Published(s: seq<Command>): seq<Command>
    decreases |s|
  {
    if s == [] then []
    else (if s[0].Commit? || s[0].Push? then [s[0]] else []) + Published(s[1..])
  }

  /** One commit/push pair per target from index `i` on, `m` of them, in order,
      each commit with its target's message. */
  function Pairs(opts: Options, i: nat, m: nat): seq<Command>
    requires i + m <= |opts.mergeTargets|
    decreases m
  {
    if m == 0 then []
    else [Commit(CommitMessage(opts.baseBranch, opts.headCommitId, opts.mergeTargets[i])), Push] + Pairs(opts, i + 1, m - 1)
  }

  lemma {:induction false} PublishedConcat(s: seq<Command>, t: seq<Command>)
    ensures Published(s + t) == Published(s) + Published(t)
    decreases |s|
  {
    if s != [] {
      assert (s + t)[0] == s[0];
      assert (s + t)[1..] == s[1..] + t;
      PublishedConcat(s[1..], t);
    } else {
      assert s + t == t;
    }
  }

  lemma {:induction false} PublishedNone(s: seq<Command>)
    requires forall c :: c in s ==> !c.Commit? && !c.Push?
    ensures Published(s) == []
    decreases |s|
  {
    if s != [] {
      assert forall c :: c in s[1..] ==> c in s;
      PublishedNone(s[1..]);
    }
  }

  /** The commands up to the conflict check publish nothing. */
  lemma AttemptedPublishesNothing(opts: Options, b: string, cursor: string, mf: bool)
    ensures Published(Attempted(opts, b, cursor, mf)) == []
  {
    PublishedNone(Attempted(opts, b, cursor, mf));
  }

  /** The commands after a clean conflict check publish the target's commit, then the push. */
  lemma FinishedPublishes(opts: Options, b: string)
    ensures Published(Finished(opts, b)) == [Commit(CommitMessage(opts.baseBranch, opts.headCommitId, b)), Push]
  {
    var F := Finished(opts, b);
    var P := [F[0], Push];
    var Q := [RevParseHead, ResetHard];
    assert F == P + Q;
    PublishedNone(Q);
    assert P[1..] == [Push];
    assert [Push][1..] == [];
    assert Published([Push]) == [Push];
    assert Published(P) == P;
    PublishedConcat(P, Q);
  }

  /** A completed block publishes its target's commit, then the push. */
  lemma BlockPublishes(opts: Options, b: string, cursor: string, mf: bool)
    ensures Published(Block(opts, b, cursor, mf))
         == [Commit(CommitMessage(opts.baseBranch, opts.headCommitId, b)), Push]
  {
    AttemptedPublishesNothing(opts, b, cursor, mf);
    FinishedPublishes(opts, b);
    PublishedConcat(Attempted(opts, b, cursor, mf), Finished(opts, b));
  }

  /** Completed blocks publish one commit/push pair per target, in order. */
  lemma {:induction false} BlocksPublish(opts: Options, i: nat, A: seq<Attempt>)
    requires i + |A| <= |opts.mergeTargets|
    ensures Published(Blocks(opts, i, A)) == Pairs(opts, i, |A|)
    decreases |A|
  {
    if A != [] {
      var B := Block(opts, opts.mergeTargets[i], A[0].cursor, A[0].mergeFailed);
      BlockPublishes(opts, opts.mergeTargets[i], A[0].cursor, A[0].mergeFailed);
      BlocksPublish(opts, i + 1, A[1..]);
      PublishedConcat(B, Blocks(opts, i + 1, A[1..]));
    }
  }

  /** The preamble publishes nothing. */
  lemma PreamblePublishesNothing(opts: Options)
    ensures Published(Preamble(opts)) == []
  {
    PublishedNone(Preamble(opts));
  }

  /** A loop that reports `Done` published one commit/push pair per remaining
      target, in order. */
  lemma LoopDonePublishes(o: Oracle, opts: Options, pass: Pass, h: seq<Command>, i: nat, cursor: string)
    requires Shaped(o, opts, pass) && i <= |opts.mergeTargets|
    ensures var r := LoopFrom(pass, opts, h, i, cursor);
      r.outcome == Done ==> |h| <= |r.log| && Published(r.log[|h|..]) == Pairs(opts, i, |opts.mergeTargets| - i)
  {
    var r := LoopFrom(pass, opts, h, i, cursor);
    LoopDone(o, opts, pass, h, i, cursor);
    if r.outcome == Done {
      var A := Attempts(o, opts, pass, h, i, cursor);
      assert r.log[|h|..] == Blocks(opts, i, A);
      BlocksPublish(opts, i, A);
    }
  }

  /** A loop that stops on conflicts at target K published one commit/push pair
      per target before K, in order, and none for K. */
  lemma LoopConflictPublishes(o: Oracle, opts: Options, pass: Pass, h: seq<Command>, i: nat, cursor: string)
    requires Shaped(o, opts, pass) && i <= |opts.mergeTargets|
    ensures var r := LoopFrom(pass, opts, h, i, cursor);
      r.outcome.AbortedWithFailure? && r.outcome.failure.Conflicts? ==>
        i <= r.stoppedAt <= |opts.mergeTargets| && |h| <= |r.log| && Published(r.log[|h|..]) == Pairs(opts, i, r.stoppedAt - i)
  {
    var r := LoopFrom(pass, opts, h, i, cursor);
    LoopConflictLog(o, opts, pass, h, i, cursor);
    if r.outcome.AbortedWithFailure? && r.outcome.failure.Conflicts? {
      var A := Attempts(o, opts, pass, h, i, cursor);
      var K := r.stoppedAt;
      var X := Blocks(opts, i, A[..K - i]);
      var Y := Attempted(opts, opts.mergeTargets[K], A[K - i].cursor, A[K - i].mergeFailed);
      assert r.log[|h|..] == X + Y;
      BlocksPublish(opts, i, A[..K - i]);
      AttemptedPublishesNothing(opts, opts.mergeTargets[K], A[K - i].cursor, A[K - i].mergeFailed);
      PublishedConcat(X, Y);
    }
  }

  /** After the preamble, a history publishes what its part after the preamble does. */
  lemma PublishedAfterPreamble(opts: Options, h: seq<Command>, log: seq<Command>)
    requires |h + Preamble(opts)| <= |log| && log[..|h + Preamble(opts)|] == h + Preamble(opts)
    ensures Published(log[|h|..]) == Published(log[|h + Preamble(opts)|..])
  {
    var P := Preamble(opts);
    assert log[|h|..] == P + log[|h + P|..];
    PublishedConcat(P, log[|h + P|..]);
    PreamblePublishesNothing(opts);
  }

  /** The loop after the preamble, when it reports `Done`. */
  lemma LoopAfterPreambleDone(o: Oracle, opts: Options, pass: Pass, h: seq<Command>)
    requires Shaped(o, opts, pass)
    ensures var H := h + Preamble(opts);
      var r := LoopFrom(pass, opts, H, 0, opts.headCommitId);
      var A := Attempts(o, opts, pass, H, 0, opts.headCommitId);
      r.outcome == Done ==>
        && |A| == |opts.mergeTargets|
        && r.log == h + Preamble(opts) + Blocks(opts, 0, A)
        && Published(r.log[|h|..]) == Pairs(opts, 0, |opts.mergeTargets|)
  {
    var H := h + Preamble(opts);
    var r := LoopFrom(pass, opts, H, 0, opts.headCommitId);
    LoopDone(o, opts, pass, H, 0, opts.headCommitId);
    if r.outcome == Done {
      LoopDonePublishes(o, opts, pass, H, 0, opts.headCommitId);
      LoopExtends(o, opts, pass, H, 0, opts.headCommitId);
      PublishedAfterPreamble(opts, h, r.log);
    }
  }

  /** The loop after the preamble, when it stops on conflicts. */
  lemma LoopAfterPreambleConflict(o: Oracle, opts: Options, pass: Pass, h: seq<Command>)
    requires Shaped(o, opts, pass)
    ensures var H := h + Preamble(opts);
      var r := LoopFrom(pass, opts, H, 0, opts.headCommitId); var K := r.stoppedAt;
      r.outcome.AbortedWithFailure? && r.outcome.failure.Conflicts? ==>
        K <= |opts.mergeTargets| && |h| <= |r.log| && Published(r.log[|h|..]) == Pairs(opts, 0, K)
  {
    var H := h + Preamble(opts);
    var r := LoopFrom(pass, opts, H, 0, opts.headCommitId);
    if r.outcome.AbortedWithFailure? && r.outcome.failure.Conflicts? {
      LoopConflictPublishes(o, opts, pass, H, 0, opts.headCommitId);
      LoopExtends(o, opts, pass, H, 0, opts.headCommitId);
      PublishedAfterPreamble(opts, h, r.log);
    }
  }

  // ---------------------------------------------------------------------------
  // Properties of the whole run.

  /** A run that reports `Done` got past the preamble, then issued one complete
      block per target in list order, so it published exactly one commit/push pair
      per target, in that order; every command it issued except the merges
      succeeded, and every conflict check came back empty. */
  lemma RunDone(o: Oracle, opts: Options, h: seq<Command>)
    ensures var r := RunSpec(o, opts, h);
      var A := Attempts(o, opts, PassOf(o, opts), h + Preamble(opts), 0, opts.headCommitId);
      r.outcome == Done ==>
        && EntersLoop(o, opts, h)
        && |A| == |opts.mergeTargets|
        && r.log == h + Preamble(opts) + Blocks(opts, 0, A)
        && Published(r.log[|h|..]) == Pairs(opts, 0, |opts.mergeTargets|)
        && Answers(o, h, r.log[|h|..], MergesAside)
        && Answers(o, h, r.log[|h|..], EmptyListings)
  {
    StartShape(o, opts, h);
    RunEntersLoop(o, opts, h);
    LoopBodyShaped(o, opts);
    LoopAfterPreambleDone(o, opts, PassOf(o, opts), h);
    var r := RunSpec(o, opts, h);
    if r.outcome == Done {
      var H := h + Preamble(opts);
      LoopDoneAnswers(o, opts, PassOf(o, opts), H, 0, opts.headCommitId);
      PreambleAnswers(o, opts, h);
      assert H[|h|..] == Preamble(opts);
      AnswersThrough(o, h, H, r.log, MergesAside);
      AnswersThrough(o, h, H, r.log, EmptyListings);
    }
  }


  /** A run that stops on conflicts at target K got past the preamble, reports the
      conflicts for the base branch and K with a non-empty listing, issued one
      complete block for each target before K and then K's commands up to the
      conflict check, and so published exactly one commit/push pair for each
      target before K and none for K or later. */
  lemma RunConflict(o: Oracle, opts: Options, h: seq<Command>)
    ensures var r := RunSpec(o, opts, h); var K := r.stoppedAt;
      var A := Attempts(o, opts, PassOf(o, opts), h + Preamble(opts), 0, opts.headCommitId);
      r.outcome.AbortedWithFailure? && r.outcome.failure.Conflicts? ==>
        && EntersLoop(o, opts, h)
        && K < |opts.mergeTargets|
        && r.outcome.failure == Conflicts(opts.baseBranch, opts.mergeTargets[K], r.outcome.failure.listing)
        && r.outcome.failure.listing != []
        && ConflictHistory(opts, h + Preamble(opts), 0, r, A)
        && Published(r.log[|h|..]) == Pairs(opts, 0, K)
  {
    StartShape(o, opts, h);
    RunEntersLoop(o, opts, h);
    LoopBodyShaped(o, opts);
    LoopConflictReport(o, opts, PassOf(o, opts), h + Preamble(opts), 0, opts.headCommitId);
    LoopConflictLog(o, opts, PassOf(o, opts), h + Preamble(opts), 0, opts.headCommitId);
    LoopAfterPreambleConflict(o, opts, PassOf(o, opts), h);
  }


  /** The preamble of a run that reaches the loop got a success for every command
      and holds no conflict check. */
  lemma PreambleAnswers(o: Oracle, opts: Options, h: seq<Command>)
    ensures EntersLoop(o, opts, h) ==>
      Answers(o, h, Preamble(opts), MergesAside) && Answers(o, h, Preamble(opts), EmptyListings)
  {
    var P := Preamble(opts);
    var S := SwitchCmds(opts.baseBranch);
    var D := [CountChangedFiles(opts.before, opts.headCommitId)];
    var I := [SetUserEmail(BotEmail), SetUserName(BotName)];
    forall k | 0 <= k < |P|
      ensures P[k] != ListConflicts
    {
      assert P[k] in P;
    }
    if EntersLoop(o, opts, h) {
      SwitchAnswers(o, h, opts.baseBranch);
      IssueAnswers(o, h + S + D, I);
      assert (h + S) + D[..0] == h + S;
      AnswersConcat(o, h, S, D, MergesAside);
      AnswersConcat(o, h, S + D, I, MergesAside);
      assert h + (S + D) == h + S + D;
      assert P == S + D || P == (S + D) + I;
    }
  }

  /** A part before the loop that fails on a command names the last command it
      issued, which failed. */
  lemma StartFailureNamesLast(o: Oracle, opts: Options, h: seq<Command>)
    ensures var st := StartSpec(o, opts, h);
      st.Quit? && st.outcome.AbortedWithFailure? && st.outcome.failure.CommandFailed? ==>
        FailedLast(o, h, st.log, st.outcome.failure.command)
  {
    var base := SwitchSpec(o, h, opts.baseBranch);
    if !base.threw {
      var diff := CountChangedFiles(opts.before, opts.headCommitId);
      var h1 := base.log + [diff];
      assert |h| < |h1| && h1[..|h1| - 1] == base.log && h1[|h1| - 1] == diff;
      if Respond(o, base.log, diff).Ok? && !MoreThanOne(Respond(o, base.log, diff).output) && !opts.dryRun {
        IssueAnswers(o, h1, [SetUserEmail(BotEmail), SetUserName(BotName)]);
      }
    }
  }

  /** A run that fails on a command names the last command it issued, which is not
      a merge and failed: a failure of any command other than `git merge`, before or
      inside the loop, ends the run. */
  lemma RunFailureNamesLast(o: Oracle, opts: Options, h: seq<Command>)
    ensures var r := RunSpec(o, opts, h);
      r.outcome.AbortedWithFailure? && r.outcome.failure.CommandFailed? ==>
        FailedLast(o, h, r.log, r.outcome.failure.command)
  {
    StartFailureNamesLast(o, opts, h);
    StartShape(o, opts, h);
    RunEntersLoop(o, opts, h);
    LoopBodyShaped(o, opts);
    LoopFailureNamesLast(o, opts, PassOf(o, opts), h + Preamble(opts), 0, opts.headCommitId);
  }

  /** After the preamble, the answers decide how the run ends (with RunConflict:
      conflicts for the target whose check it was, with that listing). */
  lemma RunDecided(o: Oracle, opts: Options, h: seq<Command>)
    ensures EntersLoop(o, opts, h) ==> DecidedByAnswers(o, h + Preamble(opts), RunSpec(o, opts, h))
  {
    RunEntersLoop(o, opts, h);
    if EntersLoop(o, opts, h) {
      LoopBodyShaped(o, opts);
      LoopDecided(o, opts, PassOf(o, opts), h + Preamble(opts), 0, opts.headCommitId);
    }
  }

  /** A run that gets past the preamble merges the head commit into the first
      target and, into each later target, what `git rev-parse HEAD` answered
      after the previous target's push. */
  lemma RunChainsCursors(o: Oracle, opts: Options, h: seq<Command>)
    ensures var A := Attempts(o, opts, PassOf(o, opts), h + Preamble(opts), 0, opts.headCommitId);
      EntersLoop(o, opts, h) ==>
        && RunSpec(o, opts, h) == LoopFrom(PassOf(o, opts), opts, h + Preamble(opts), 0, opts.headCommitId)
        && |A| <= |opts.mergeTargets|
        && (A != [] ==> A[0].cursor == opts.headCommitId)
        && ChainsCursors(o, opts, h + Preamble(opts), 0, A)
  {
    RunEntersLoop(o, opts, h);
    LoopBodyShaped(o, opts);
    LoopChainsCursors(o, opts, PassOf(o, opts), h + Preamble(opts), 0, opts.headCommitId);
  }

  lemma NoIdentityCounts(s: seq<Command>)
    requires NoIdentity(s)
    ensures multiset(s)[SetUserEmail(BotEmail)] == 0 && multiset(s)[SetUserName(BotName)] == 0
  {
    assert SetUserEmail(BotEmail) !in s && SetUserName(BotName) !in s;
  }

  /** The identity commands among the first `m` commands of the preamble. */
  lemma PreamblePrefixIdentity(opts: Options, m: nat)
    requires m <= |Preamble(opts)|
    ensures multiset(Preamble(opts)[..m])[SetUserEmail(BotEmail)] == (if m >= 4 then 1 else 0)
    ensures multiset(Preamble(opts)[..m])[SetUserName(BotName)] == (if m == 5 then 1 else 0)
  {
    var P := Preamble(opts);
    var G := [Fetch(opts.baseBranch), ForceCheckout(opts.baseBranch), CountChangedFiles(opts.before, opts.headCommitId)];
    if m <= 3 {
      assert P[..m] == G[..m];
      assert SetUserEmail(BotEmail) !in G[..m] && SetUserName(BotName) !in G[..m];
    } else if m == 4 {
      assert P[..m] == G + [SetUserEmail(BotEmail)];
    } else {
      assert P[..m] == G + [SetUserEmail(BotEmail), SetUserName(BotName)];
    }
  }

  /** How many of the preamble's commands the part before the loop issued: the
      e-mail command is the fourth and the name command the fifth. */
  lemma StartIssued(o: Oracle, opts: Options, h: seq<Command>)
    ensures var st := StartSpec(o, opts, h);
      var h1 := SwitchSpec(o, h, opts.baseBranch).log + [CountChangedFiles(opts.before, opts.headCommitId)];
      var configures := !opts.dryRun && PassesScopeGuard(o, opts, h);
      var m := |st.log| - |h|;
      && (m >= 4 <==> configures)
      && (m == 5 <==> configures && Respond(o, h1, SetUserEmail(BotEmail)).Ok?)
  {
    var base := SwitchSpec(o, h, opts.baseBranch);
    if !base.threw {
      var h1 := base.log + [CountChangedFiles(opts.before, opts.headCommitId)];
      assert |base.log| == |h| + 2;
      if PassesScopeGuard(o, opts, h) && !opts.dryRun {
        IssueCons(o, h1, SetUserEmail(BotEmail), [SetUserName(BotName)]);
        IssueCons(o, h1 + [SetUserEmail(BotEmail)], SetUserName(BotName), []);
      }
    } else {
      assert |base.log| <= |h| + 2;
    }
  }

  /** Counting identity commands after `h`: a history that extends `s` by commands
      holding no identity command counts as many as `s`. */
  lemma IdentityCountsExtend(h: seq<Command>, s: seq<Command>, t: seq<Command>)
    requires |h| <= |s| <= |t| && t[..|s|] == s && NoIdentity(t[|s|..])
    ensures multiset(t[|h|..])[SetUserEmail(BotEmail)] == multiset(s[|h|..])[SetUserEmail(BotEmail)]
    ensures multiset(t[|h|..])[SetUserName(BotName)] == multiset(s[|h|..])[SetUserName(BotName)]
  {
    assert t[|h|..] == s[|h|..] + t[|s|..];
    NoIdentityCounts(t[|s|..]);
  }

  /** What the part before the loop configures. */
  lemma StartSetsIdentity(o: Oracle, opts: Options, h: seq<Command>)
    ensures var st := StartSpec(o, opts, h);
      var h1 := SwitchSpec(o, h, opts.baseBranch).log + [CountChangedFiles(opts.before, opts.headCommitId)];
      var configures := !opts.dryRun && PassesScopeGuard(o, opts, h);
      && |h| <= |st.log|
      && multiset(st.log[|h|..])[SetUserEmail(BotEmail)] == (if configures then 1 else 0)
      && multiset(st.log[|h|..])[SetUserName(BotName)]
         == (if configures && Respond(o, h1, SetUserEmail(BotEmail)).Ok? then 1 else 0)
  {
    var st := StartSpec(o, opts, h);
    StartShape(o, opts, h);
    StartIssued(o, opts, h);
    var m := |st.log| - |h|;
    assert st.log[|h|..] == Preamble(opts)[..m];
    PreamblePrefixIdentity(opts, m);
  }


  /** The bot's e-mail is configured exactly when this is not a dry run and the
      scope guard passed, and its name exactly when, in addition, setting the
      e-mail succeeded; neither more than once in a run. */
  lemma RunSetsIdentity(o: Oracle, opts: Options, h: seq<Command>)
    ensures var r := RunSpec(o, opts, h);
      var h1 := SwitchSpec(o, h, opts.baseBranch).log + [CountChangedFiles(opts.before, opts.headCommitId)];
      var configures := !opts.dryRun && PassesScopeGuard(o, opts, h);
      && |h| <= |r.log|
      && multiset(r.log[|h|..])[SetUserEmail(BotEmail)] == (if configures then 1 else 0)
      && multiset(r.log[|h|..])[SetUserName(BotName)]
         == (if configures && Respond(o, h1, SetUserEmail(BotEmail)).Ok? then 1 else 0)
  {
    var st := StartSpec(o, opts, h);
    StartSetsIdentity(o, opts, h);
    StartShape(o, opts, h);
    if st.Proceed? {
      LoopBodyShaped(o, opts);
      LoopExtends(o, opts, PassOf(o, opts), st.log, 0, opts.headCommitId);
      LoopSetsNoIdentity(o, opts, PassOf(o, opts), st.log, 0, opts.headCommitId);
      IdentityCountsExtend(h, st.log, RunSpec(o, opts, h).log);
    }
  }

}
