# Version watcher: a verified model

This project models the core of the version-watcher GitHub action. The action
runs when a version-file bump lands on a base branch and merges that change
forward into a chain of later branches while keeping each branch's own version
file. The model has two parts.

- **The orchestrator** (`VersionWatcherAction.runAction` and `switchToBranch`).
  It takes these steps in order:
  - switch to the base branch, and end gracefully when that fails;
  - check the changed-file count from
    `git diff before...head --name-only | wc -l`;
  - set the bot identity unless this is a dry run;
  - for each merge target in order, switch to it and merge the cursor commit
    without committing, keeping the version file as "ours";
  - if conflicts remain, fail the run; otherwise commit, push, read the new
    head as the next cursor, and hard-reset.

  Every effect goes through `exec`. Here `exec` is an oracle (`Git.Oracle`): it
  answers a command, given every command issued before it, with the command's
  trimmed output or a failure. `Git.ShellOracle` defines how any executor that
  sees only shell lines becomes such an oracle. The class `VersionWatcherAction` keeps
  the history of issued commands in its field `log`. Each method is proved equal
  to a function of the oracle and the history before it (`SwitchSpec`,
  `IterationSpec`, `LoopFrom`, `RunSpec`, …). The properties of a run are lemmas
  about those functions, stated over the history and the reported outcome:
  - `Done`;
  - `AbortedGracefully` (the base branch is gone, or more than one file changed);
  - `AbortedWithFailure` (conflicts reported through `setFailed`, or an executor
    error that escaped the run).

  Which answers lead to which outcome is stated with the predicate
  `Answers(o, h, s, rule)`: every command of `s`, issued in turn after `h`, got
  an answer that `rule` accepts. Under `MergesAside`, every command except
  `git merge` succeeded (a failing merge is swallowed). Under `EmptyListings`,
  every conflict check answered with an empty listing.
- **The configuration reader** (`configReader`, working on an already-parsed
  configuration):
  - `buildMergeTargets` walks the successor map `mergeOperations` from the base
    branch;
  - `branchNameByMilestone` inverts `branches` into a map from milestone number
    to branch name.

  Both are methods with loops, proved against predicates (`IsMergeChain`,
  `IsMilestoneMap`). Lemmas show that each predicate determines its result
  uniquely.

**How `buildMergeTargets` terminates.** The source loops forever on a cyclic
successor map. The model keeps the source's unbounded loop and requires
`WalkIsAcyclic`: no walk from the start key repeats a key. `ChainNeedsAcyclic`
proves the converse: it shows that whenever the walk ends, the walk was acyclic.
So the precondition is exactly the loop's termination condition, and it excludes
no input on which the source returns.

Files: `git.dfy` (commands, command lines, the oracle), `version_watcher.dfy`
(the run as functions and the class proved against them),
`version_watcher_properties.dfy` (what a run does), `config_reader.dfy`.

## Model

| member | source | states |
|---|---|---|
| Git.CommandLine | version-watcher.js:21-93 | the exact shell line of each command the action issues: the count at line 21, the identity commands at lines 31-32, the merge and `git status` at lines 44 and 49, checkout-ours, add and the conflict listing at lines 52-56, commit, push, rev-parse and reset at lines 71-78, and the fetch and forced checkout at lines 92-93 |
| VersionWatcher.ShortSha | version-watcher.js:69 | the first seven characters of `head_commit.id`, or all of it when it is shorter |
| VersionWatcher.CommitMessage | version-watcher.js:70 | the commit message names the base branch, the short head sha and the target branch |
| VersionWatcher.Issue | version-watcher.js:52-56 | awaited `exec` calls in a row issue their commands in order; the history grows by a prefix of them, by all of them when none throws |
| VersionWatcher.IssueValue | version-watcher.js:52-56 | a part that did not throw hands on the output its last command gave |
| VersionWatcher.IssueFailure | version-watcher.js:52-56 | a part that threw ends with a command that failed |
| VersionWatcher.IssueOkBefore | version-watcher.js:52-56 | every command a part issued before its last one succeeded, and the last one too when nothing threw: the part stops at its first failing command |
| VersionWatcher.VersionWatcherAction.constructor | version-watcher.js:5-8 | the action keeps its options and starts with an empty history |
| VersionWatcher.VersionWatcherAction.Exec | version-watcher.js:21 | `exec` appends exactly its command to the history and returns the executor's answer for it |
| VersionWatcher.VersionWatcherAction.SwitchToBranch | version-watcher.js:90-96 | the new history and the throw flag are those of `SwitchSpec` |
| VersionWatcher.VersionWatcherAction.MergeCommit | version-watcher.js:43-50 | the new history and the throw flag are those of `MergeSpec` |
| VersionWatcher.VersionWatcherAction.ResolveVersionFile | version-watcher.js:51-56 | the new history, the throw flag and the conflict listing are those of `ResolveSpec` |
| VersionWatcher.VersionWatcherAction.Publish | version-watcher.js:68-78 | the new history, the throw flag and the new head are those of `PublishSpec` |
| VersionWatcher.VersionWatcherAction.SetIdentity | version-watcher.js:27-33 | the new history and the throw flag are those of `IdentitySpec` |
| VersionWatcher.VersionWatcherAction.MergeInto | version-watcher.js:40-79 | one loop pass ends as `IterationSpec` says (advanced with the new cursor, conflicted, or threw) and leaves its history |
| VersionWatcher.VersionWatcherAction.MergeForward | version-watcher.js:35-80 | the loop over the targets, carrying the cursor from `head_commit.id`, yields the outcome and history of `LoopFrom` |
| VersionWatcher.VersionWatcherAction.RunAction | version-watcher.js:10-81 | `runAction` yields the outcome and the history of `RunSpec` |
| VersionWatcherProperties.SwitchShape | version-watcher.js:90-93 | `switchToBranch(b)` issues the prune-fetch of `b`, then (if that succeeded) the forced checkout of `b`, and throws exactly when one of them failed |
| VersionWatcherProperties.MergeShape | version-watcher.js:43-50 | the merge of the cursor is followed by `git status` exactly when the merge failed |
| VersionWatcherProperties.ResolveShape | version-watcher.js:52-56 | checkout of ours, add and conflict listing are issued in order, a non-empty prefix of them, all of them when nothing threw; the add follows whenever the checkout succeeded |
| VersionWatcherProperties.ResolveAnswers | version-watcher.js:52-56 | the resolve step throws exactly when one of its three commands failed, and then the command it ends with failed; otherwise it hands on the conflict check's answer |
| VersionWatcherProperties.PublishShape | version-watcher.js:68-78 | commit, push, rev-parse and reset are issued in order, a non-empty prefix of them; when none throws, all four were issued and the value handed on is the rev-parse answer after the push |
| VersionWatcherProperties.PublishAnswers | version-watcher.js:71-78 | publishing throws exactly when commit, push, rev-parse or reset failed, and then the command it ends with failed |
| VersionWatcherProperties.IssueAnswers | version-watcher.js:52-56 | a part with no merge in it throws exactly when one of its commands failed, and then it ends with a command that failed and is not a merge |
| VersionWatcherProperties.SwitchAnswers | version-watcher.js:90-93 | `switchToBranch` throws exactly when the fetch or the checkout failed, and then it ends with the command that failed |
| VersionWatcherProperties.MergeAnswers | version-watcher.js:43-50 | the merge's own failure is never fatal; the merge step throws exactly when the merge failed and the `git status` after it failed too, and then it ends with that `git status` |
| VersionWatcherProperties.IterationShape | version-watcher.js:39-80 | each pass issues a non-empty prefix of its target's block (fetch, checkout, merge, status if the merge failed, checkout ours, add, conflict check, commit, push, rev-parse, reset); an advancing pass issues the whole block and hands on the rev-parse answer; a conflicting pass stops after the conflict check with a non-empty listing |
| VersionWatcherProperties.IterationDecided | version-watcher.js:41-78 | which answers decide a pass: it stops on conflicts exactly when every command up to the conflict check except the merge succeeded and the check's answer is not empty, and then reports that answer as the listing; it advances exactly when every command of the block except the merge succeeded and the check's answer is empty; when it throws, the command it names is the last one it issued, not a merge, and that command failed |
| VersionWatcherProperties.MergeFailureIsSwallowed | version-watcher.js:43-53 | after a failing merge and a successful `git status` the pass goes on to the checkout of ours, and then, when that succeeded, to `git add` |
| VersionWatcherProperties.LoopBodyShaped | version-watcher.js:39-80 | every pass of the loop body has the shape `IterationShape` states and is decided by the answers as `IterationDecided` states |
| VersionWatcherProperties.LoopExtends | version-watcher.js:39-80 | the loop only appends to the history |
| VersionWatcherProperties.LoopOutcome | version-watcher.js:39-80 | the loop never ends gracefully, and reports `Done` exactly when it got through every target |
| VersionWatcherProperties.LoopSetsNoIdentity | version-watcher.js:39-80 | the loop issues no identity command |
| VersionWatcherProperties.AttemptsCount | version-watcher.js:38-39 | the loop makes one pass per target up to where it stopped, and the first pass merges the starting cursor |
| VersionWatcherProperties.LoopDone | version-watcher.js:39-80 | a loop that reports `Done` issued exactly one complete block per target, in list order |
| VersionWatcherProperties.LoopConflictReport | version-watcher.js:56-66 | a loop stopped on conflicts at target K reports the base branch and K with a non-empty listing, after K+1 passes |
| VersionWatcherProperties.LoopConflictLog | version-watcher.js:56-66 | a loop stopped on conflicts at target K issued complete blocks for the targets before K, then K's commands up to the conflict check, and nothing for any later target |
| VersionWatcherProperties.LoopFailureNamesLast | version-watcher.js:39-80 | a loop that fails on a command names the last command it issued; that command is not a merge and it failed |
| VersionWatcherProperties.LoopDoneAnswers | version-watcher.js:39-80 | a loop that reports `Done` got a success for every command except the merges and an empty answer from every conflict check |
| VersionWatcherProperties.LoopConflictAnswers | version-watcher.js:39-66 | a loop stopped on conflicts got a success for every command except the merges, and ends with a conflict check; it reports what that check answered, and every earlier check answered empty |
| VersionWatcherProperties.LoopDecided | version-watcher.js:39-80 | the answers decide the loop's outcome, each in both directions: `Done` exactly when every command except the merges succeeded and every conflict check answered empty; conflicts exactly when every command except the merges succeeded and the history ends with a conflict check that answered non-empty after empty ones, the reported listing being that answer; a command failure exactly when some command other than a merge failed |
| VersionWatcherProperties.LoopChainsCursors | version-watcher.js:38-75 | the loop merges the starting cursor first, and into each later target what `git rev-parse HEAD` answered right after the previous target's push |
| VersionWatcherProperties.BlockPublishes | version-watcher.js:69-72 | a completed block publishes one commit, whose message is `merged <base> (<first 7 of head_commit.id>) version.properties bump into <target>` (the original head, not the cursor), then one push |
| VersionWatcherProperties.BlocksPublish | version-watcher.js:39-80 | completed blocks publish one commit/push pair per target, in order |
| VersionWatcherProperties.LoopDonePublishes | version-watcher.js:39-80 | a loop that reports `Done` publishes one commit/push pair per target, in order |
| VersionWatcherProperties.LoopConflictPublishes | version-watcher.js:56-72 | a loop stopped on conflicts at target K publishes one pair per target before K and none for K |
| VersionWatcherProperties.StartShape | version-watcher.js:12-33 | the part before the loop proceeds exactly when the run gets past the base switch, the scope guard and the identity commands; it then issued all of them, and otherwise a non-empty prefix of them, ending gracefully or with a command failure |
| VersionWatcherProperties.RunEntersLoop | version-watcher.js:35-39 | a run that gets past the preamble is the loop over every target, after the preamble, starting from `head_commit.id` |
| VersionWatcherProperties.RunExtends | version-watcher.js:10-81 | a run only appends to the history |
| VersionWatcherProperties.BaseBranchGoneEndsGracefully | version-watcher.js:12-18 | the run ends gracefully as "base branch gone" exactly when the base switch threw; it then issued only the base switch: no merge, commit or push, and no failure |
| VersionWatcherProperties.ScopeGuardEndsGracefully | version-watcher.js:20-25 | the run ends gracefully as "multiple files" exactly when the base switch succeeded and the count is above one; it then issued only the base switch and the count, before any identity command or target switch |
| VersionWatcherProperties.StartIssued | version-watcher.js:27-33 | the part before the loop issued the e-mail command exactly when this is no dry run and the scope guard passed, and the name command exactly when, in addition, the e-mail command succeeded |
| VersionWatcherProperties.StartSetsIdentity | version-watcher.js:27-33 | the part before the loop issues each identity command once under those conditions and zero times otherwise |
| VersionWatcherProperties.RunSetsIdentity | version-watcher.js:27-33 | a whole run issues the e-mail command once exactly when this is no dry run and the scope guard passed (zero times otherwise), and the name command once exactly when the e-mail command also succeeded |
| VersionWatcherProperties.RunDone | version-watcher.js:10-80 | a run that reports `Done` got past the preamble, issued one complete block per target in list order, and published exactly one commit/push pair per target, in order; every command it issued except the merges succeeded, and every conflict check answered empty |
| VersionWatcherProperties.RunConflict | version-watcher.js:56-72 | a run stopped on conflicts at target K reports the base branch and K with a non-empty listing; it issued complete blocks for the targets before K, then K's commands up to the conflict check, so it published exactly one commit/push pair per target before K and none for K or later |
| VersionWatcherProperties.PreambleAnswers | version-watcher.js:12-33 | in a run that reaches the loop, every command before it succeeded, and none of them is a conflict check |
| VersionWatcherProperties.StartFailureNamesLast | version-watcher.js:21-32 | a command failure before the loop (the count or an identity command) names the last command issued, and that command failed |
| VersionWatcherProperties.RunFailureNamesLast | version-watcher.js:10-81 | a run that fails on a command names the last command it issued; that command is not a merge and it failed |
| VersionWatcherProperties.RunDecided | version-watcher.js:39-80 | after the preamble the answers decide the run's outcome as in `LoopDecided`: `Done`, conflicts (for the target `RunConflict` names, with the check's answer as the listing) or a command failure, each exactly when its answer condition holds |
| VersionWatcherProperties.RunChainsCursors | version-watcher.js:38-75 | a run that gets past the preamble merges `head_commit.id` into the first target, and into each later target the `git rev-parse HEAD` answer read after the previous push |
| ConfigReader.StartKey | config-reader.js:39 | the walk starts from the base branch when it is present and non-empty, and from the key "0" otherwise |
| ConfigReader.Successor | config-reader.js:39-42 | a lookup in `mergeOperations` gives the stored string, and the empty (falsy) string for a missing key, which ends the walk |
| ConfigReader.BuildMergeTargets | config-reader.js:36-46 | the result is the successor chain from `mergeOperations[baseBranch]`, or from key `0` when the base branch is absent or empty; it has no duplicates and is no longer than the number of keys |
| ConfigReader.MergeChainSteps | config-reader.js:37-45 | the chain is empty exactly when the start lookup is missing or empty; otherwise it starts with that lookup, each element's lookup is the next element, the last element's lookup is missing or empty, and no element is empty |
| ConfigReader.MergeChainUnique | config-reader.js:36-46 | the successor map and the start key determine the chain |
| ConfigReader.ChainNeedsAcyclic | config-reader.js:40-43 | whenever the walk ends, no walk from the start key repeats a key, so the precondition of `BuildMergeTargets` is exactly termination |
| ConfigReader.MilestoneStep | config-reader.js:67-71 | recording one more entry keeps the map the milestone map of the entries seen so far |
| ConfigReader.BranchNameByMilestone | config-reader.js:65-73 | the keys of the result are exactly the milestone numbers of `branches`; each maps to the name of the last entry carrying it |
| ConfigReader.LaterEntryWins | config-reader.js:67-71 | every milestone number in the map maps to the name of the last entry carrying that number |
| ConfigReader.MilestoneMapUnique | config-reader.js:65-72 | the entries determine the milestone map |
| ConfigReader.ReadConfig | config-reader.js:22-34 | `configReader` returns the configuration unchanged, with its merge chain from the base branch and its milestone map |

## Left out

- File and JSON I/O (`readFileSync`, `JSON.parse`): `ReadConfig` takes an already-parsed `Config`.
- index.js is not part of this model, except that the base branch it passes is the pushed ref with `refs/heads/` stripped; its CI wiring and its older loop are left out.
- Logging and annotations (`core.info`, `warning`, `startGroup`, `endGroup`): these have no effect in the model. `setFailed` appears only as the outcome `AbortedWithFailure(Conflicts(base, target, listing))`; its message text is not modelled.
- `core` is used but never required in version-watcher.js (lines 23, 30, 40, 45, 48-49, 60-64 and 79). The model takes it to resolve (for instance, as a global). Otherwise a reference error would be thrown at the first use a run reaches: line 23 when more than one file changed, line 30 when this is not a dry run, and line 40 in a dry run with at least one target. Only a run whose base switch fails (it returns at line 17), a run whose count command at line 21 throws the executor's error, or a dry run with no targets would end before any use of `core`.
- The action's options are taken as complete: `before`, `head_commit.id`, `configData.mergeTargets`, `versionFile` and `baseBranch` are always strings or sequences, so the `options = {}` default of line 5 and the TypeError that a missing `head_commit` or `configData` would raise at lines 21 and 36 after a good base switch are not modelled. `dryRun` is a boolean; JavaScript truthiness at line 27 (a string `"false"` counts as a dry run) is not modelled.
- The `BaseAction` superclass is left out beyond `exec`. The model takes `exec` to answer with the trimmed output or to throw, and relies on nothing else.
- `async`/`await` and `for await`: the run is modelled as sequential.
- Git's own behaviour (merge, diff, push): each answer is an uninterpreted oracle value.
- VersionWatcher.MoreThanOne: the JavaScript comparison `filesChanged > 1` coerces a string to a number; the model reads the count only as a decimal digit string, and any other output counts as not above one (forms such as " 2", "2.5" or "0x2" are not modelled).
- The history `log` is a real field rather than a ghost one, because the oracle's answers depend on it (it stands for the repository state).
- Errors that escape `runAction` become the outcome `AbortedWithFailure(CommandFailed(command))` rather than a rejected promise.
- ConfigReader.BuildMergeTargets: requires `WalkIsAcyclic` instead of modelling non-termination on a cyclic successor map (see `ChainNeedsAcyclic`).
- Values of `mergeOperations` that are not strings, property names inherited from `Object.prototype` (such as `constructor`), and a missing `mergeOperations` or `branches` field are not modelled. A missing key and an empty string are both falsy and both end the walk.
- `milestoneNumber` is modelled as an integer. Other values, which JavaScript would coerce to property-name strings, are not modelled. The enumeration order of `Object.entries` is taken as the order of the `branches` sequence.
