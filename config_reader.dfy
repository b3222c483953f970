/** The configuration reader: from an already-parsed configuration, the ordered
    chain of branches a change is merged forward into, and the branch each
    milestone is assigned to. */
module ConfigReader {

  datatype Option<T> = None | Some(value: T)

  /** One entry of `branches`: the branch name and its properties. */
  datatype BranchProps = BranchProps(alias: string, milestoneNumber: int)
  datatype BranchEntry = BranchEntry(name: string, props: BranchProps)

  /** The parsed configuration: the successor map `mergeOperations`, and the
      entries of the `branches` object in their enumeration order. */
  datatype Config = Config(mergeOperations: map<string, string>, branches: seq<BranchEntry>)

  /** The reader's options; `baseBranch` may be absent. */
  datatype ReaderOptions = ReaderOptions(baseBranch: Option<string>)

  /** What the reader returns: the configuration as given, plus the two derived views. */
  datatype Configuration = Configuration(
    config: Config,
    mergeTargets: seq<string>,
    branchNameByMilestoneNumber: map<int, string>)

  // ---------------------------------------------------------------------------
  // The merge chain.

  /** `options.baseBranch || 0`: the key the walk starts from; an absent or empty
      base branch falls back to the property key "0". */
  function StartKey(baseBranch: Option<string>): string
  {
    if baseBranch.Some? && baseBranch.value != "" then baseBranch.value else "0"
  }

  /** `mergeOperations[key]`, with a missing key read as the empty (falsy) string. */
  function Successor(ops: map<string, string>, key: string): string
  {
    if key in ops then ops[key] else ""
  }

  /** `w` follows the successor map from `start`: each key but the last has a
      non-empty successor, and the next key is that successor. */
  predicate IsWalk(ops: map<string, string>, start: string, w: seq<string>)
  {
    && |w| >= 1 && w[0] == start
    && forall i :: 0 <= i < |w| - 1 ==> Successor(ops, w[i]) != "" && w[i + 1] == Successor(ops, w[i])
  }

  predicate Distinct(s: seq<string>)
  {
    forall i, j :: 0 <= i < j < |s| ==> s[i] != s[j]
  }

  /** No walk from `start` visits a key twice. */
  ghost predicate WalkIsAcyclic(ops: map<string, string>, start: string)
  {
    forall w :: IsWalk(ops, start, w) ==> Distinct(w)
  }

  /** `r` is the chain the walk from `start` collects: the walk without its start,
      ending at the first key whose successor is missing or empty. */
  predicate IsMergeChain(ops: map<string, string>, start: string, r: seq<string>)
  {
    IsWalk(ops, start, [start] + r) && Successor(ops, ([start] + r)[|r|]) == ""
  }

  /** A sequence of distinct values, all drawn from `keys`, is no longer than `keys`. */
  lemma {:induction false} DistinctWithin(s: seq<string>, keys: set<string>)
    requires Distinct(s) && forall i :: 0 <= i < |s| ==> s[i] in keys
    ensures |s| <= |keys|
    decreases |s|
  {
    if s != [] {
      assert forall i :: 0 <= i < |s| - 1 ==> s[1..][i] == s[i + 1] && s[i + 1] != s[0];
      DistinctWithin(s[1..], keys - {s[0]});
    }
  }

  /** `buildMergeTargets`: follow the successor map from the start key, collecting
      each branch, until a lookup is missing or empty. The walk ends exactly when
      no walk from the start key repeats a key (`ChainNeedsAcyclic` shows the
      converse), so that is what the caller must guarantee. */
  method BuildMergeTargets(config: Config, options: ReaderOptions) returns (mergeTargets: seq<string>)
    requires WalkIsAcyclic(config.mergeOperations, StartKey(options.baseBranch))
    ensures IsMergeChain(config.mergeOperations, StartKey(options.baseBranch), mergeTargets)
    ensures Distinct(mergeTargets) && |mergeTargets| <= |config.mergeOperations.Keys|
  {
    var ops := config.mergeOperations;
    ghost var start := StartKey(options.baseBranch);
    mergeTargets := [];
    var branchTarget := Successor(ops, StartKey(options.baseBranch));
    while branchTarget != ""
      invariant IsWalk(ops, start, [start] + mergeTargets)
      invariant branchTarget == Successor(ops, ([start] + mergeTargets)[|mergeTargets|])
      invariant |mergeTargets| <= |ops.Keys|
      decreases |ops.Keys| - |mergeTargets|
    {
      ghost var w := [start] + mergeTargets;
      ghost var w' := w + [branchTarget];
      assert IsWalk(ops, start, w');
      assert Distinct(w');
      assert forall i :: 0 <= i < |w| ==> w[i] in ops by {
        forall i | 0 <= i < |w| ensures w[i] in ops {
          assert Successor(ops, w'[i]) != "";
        }
      }
      DistinctWithin(w, ops.Keys);
      mergeTargets := mergeTargets + [branchTarget];
      branchTarget := Successor(ops, branchTarget);
      assert [start] + mergeTargets == w';
    }
    ghost var w := [start] + mergeTargets;
    assert IsWalk(ops, start, w);
    assert w[1..] == mergeTargets;
    DistinctTail(w);
  }

  lemma DistinctTail(s: seq<string>)
    requires s != [] && Distinct(s)
    ensures Distinct(s[1..])
  {
    assert forall i :: 0 <= i < |s| - 1 ==> s[1..][i] == s[i + 1];
  }

  /** The merge chain stated step by step: empty exactly when the start lookup is
      missing or empty; otherwise it starts with that lookup, each branch is
      followed by its own lookup, and the last branch has none. */
  lemma MergeChainSteps(ops: map<string, string>, start: string, r: seq<string>)
    requires IsMergeChain(ops, start, r)
    ensures r == [] <==> Successor(ops, start) == ""
    ensures r != [] ==> r[0] == Successor(ops, start) && Successor(ops, r[|r| - 1]) == ""
    ensures forall i :: 0 <= i < |r| - 1 ==> r[i + 1] == Successor(ops, r[i])
    ensures forall i :: 0 <= i < |r| ==> r[i] != ""
  {
    var w := [start] + r;
    assert forall i :: 0 <= i < |r| ==> r[i] == w[i + 1];
    if r != [] {
      assert w[0] == start && w[1] == r[0];
    }
    forall i | 0 <= i < |r|
      ensures r[i] != ""
    {
      assert Successor(ops, w[i]) != "";
    }
  }

  /** Two walks from the same key agree on their common length. */
  lemma WalksAgree(ops: map<string, string>, start: string, w1: seq<string>, w2: seq<string>)
    requires IsWalk(ops, start, w1) && IsWalk(ops, start, w2) && |w1| <= |w2|
    ensures w1 == w2[..|w1|]
  {
    var k := 0;
    while k < |w1|
      invariant k <= |w1| && w1[..k] == w2[..k]
    {
      if k > 0 {
        assert w1[k - 1] == w2[k - 1];
      }
      assert w1[..k + 1] == w1[..k] + [w1[k]] && w2[..k + 1] == w2[..k] + [w2[k]];
      k := k + 1;
    }
    assert w1[..|w1|] == w1;
  }

  /** The successor map determines the chain: there is at most one. */
  lemma MergeChainUnique(ops: map<string, string>, start: string, r1: seq<string>, r2: seq<string>)
    requires IsMergeChain(ops, start, r1) && IsMergeChain(ops, start, r2)
    ensures r1 == r2
  {
    var w1 := [start] + r1;
    var w2 := [start] + r2;
    if |w1| <= |w2| {
      WalksAgree(ops, start, w1, w2);
      if |w1| < |w2| {
        assert false;
      }
    } else {
      WalksAgree(ops, start, w2, w1);
      assert false;
    }
    assert r1 == w1[1..] && r2 == w2[1..];
  }

  /** On a walk, equal keys have equal continuations. */
  lemma {:induction false} WalkRepeats(ops: map<string, string>, start: string, w: seq<string>, i: nat, j: nat, k: nat)
    requires IsWalk(ops, start, w) && i < j && j + k < |w| && w[i] == w[j]
    ensures w[i + k] == w[j + k]
    decreases k
  {
    if k > 0 {
      WalkRepeats(ops, start, w, i, j, k - 1);
    }
  }

  /** Conversely, when the loop ends, no walk from the start key repeats a key: a
      terminating walk that repeated a key would repeat it forever. So the
      precondition of `BuildMergeTargets` is exactly its termination condition. */
  lemma ChainNeedsAcyclic(ops: map<string, string>, start: string, r: seq<string>)
    requires IsMergeChain(ops, start, r)
    ensures WalkIsAcyclic(ops, start)
  {
    var W := [start] + r;
    var n := |r|;
    forall i, j | 0 <= i < j < |W|
      ensures W[i] != W[j]
    {
      if W[i] == W[j] {
        WalkRepeats(ops, start, W, i, j, n - j);
        assert false;
      }
    }
    forall w | IsWalk(ops, start, w)
      ensures Distinct(w)
    {
      if |w| <= |W| {
        WalksAgree(ops, start, w, W);
        assert forall i :: 0 <= i < |w| ==> w[i] == W[i];
      } else {
        WalksAgree(ops, start, W, w);
        assert false;
      }
    }
  }

  // ---------------------------------------------------------------------------
  // The milestone map.

  /** The milestone numbers the entries carry. */
  function Milestones(branches: seq<BranchEntry>): set<int>
  {
    set e | e in branches :: e.props.milestoneNumber
  }

  /** Entry `i` is the last entry with its milestone number. */
  predicate IsLastFor(branches: seq<BranchEntry>, i: nat)
    requires i < |branches|
  {
    forall j :: i < j < |branches| ==> branches[j].props.milestoneNumber != branches[i].props.milestoneNumber
  }

  /** `m` maps exactly the milestone numbers of `branches`, each to the name of the
      last entry carrying it. */
  predicate IsMilestoneMap(branches: seq<BranchEntry>, m: map<int, string>)
  {
    && m.Keys == Milestones(branches)
    && forall i :: 0 <= i < |branches| && IsLastFor(branches, i) ==>
         branches[i].props.milestoneNumber in m && m[branches[i].props.milestoneNumber] == branches[i].name
  }

  lemma MilestonesAppend(branches: seq<BranchEntry>, e: BranchEntry)
    ensures Milestones(branches + [e]) == Milestones(branches) + {e.props.milestoneNumber}
  {
    var b' := branches + [e];
    assert forall x :: x in b' <==> x in branches || x == e;
  }

  /** An entry that is last for its milestone number after one more entry was
      already last before it, and carries a different number from the new one. */
  lemma LastForAppend(branches: seq<BranchEntry>, e: BranchEntry, i: nat)
    requires i < |branches| && IsLastFor(branches + [e], i)
    ensures IsLastFor(branches, i) && branches[i].props.milestoneNumber != e.props.milestoneNumber
  {
    var b' := branches + [e];
    assert b'[|branches|] == e;
    forall j | i < j < |branches|
      ensures branches[j].props.milestoneNumber != branches[i].props.milestoneNumber
    {
      assert b'[j] == branches[j];
    }
  }

  /** One more entry: its milestone number now maps to its name. */
  lemma MilestoneStep(branches: seq<BranchEntry>, e: BranchEntry, m: map<int, string>)
    requires IsMilestoneMap(branches, m)
    ensures IsMilestoneMap(branches + [e], m[e.props.milestoneNumber := e.name])
  {
    var b' := branches + [e];
    var m' := m[e.props.milestoneNumber := e.name];
    MilestonesAppend(branches, e);
    forall i | 0 <= i < |b'| && IsLastFor(b', i)
      ensures b'[i].props.milestoneNumber in m' && m'[b'[i].props.milestoneNumber] == b'[i].name
    {
      if i < |branches| {
        LastForAppend(branches, e, i);
      }
    }
  }

  /** The same step for the entry at index `k`, after the entries before it. */
  lemma MilestoneStepAt(branches: seq<BranchEntry>, k: nat, m: map<int, string>)
    requires k < |branches| && IsMilestoneMap(branches[..k], m)
    ensures IsMilestoneMap(branches[..k + 1], m[branches[k].props.milestoneNumber := branches[k].name])
  {
    TakeOneMore(branches, k);
    MilestoneStep(branches[..k], branches[k], m);
  }

  lemma TakeOneMore(branches: seq<BranchEntry>, k: nat)
    requires k < |branches|
    ensures branches[..k + 1] == branches[..k] + [branches[k]]
  {
  }

  /** `branchNameByMilestone`: for each entry in turn, record its name under its
      milestone number, so that a later entry overwrites an earlier one. */
  method BranchNameByMilestone(config: Config) returns (returnValue: map<int, string>)
    ensures IsMilestoneMap(config.branches, returnValue)
  {
    var branches := config.branches;
    returnValue := map[];
    for k := 0 to |branches|
      invariant IsMilestoneMap(branches[..k], returnValue)
    {
      var entry := branches[k];
      MilestoneStepAt(branches, k, returnValue);
      returnValue := returnValue[entry.props.milestoneNumber := entry.name];
    }
    assert branches[..|branches|] == branches;
  }

  /** Every milestone number of the entries has a last entry carrying it. */
  lemma {:induction false} LastEntryExists(branches: seq<BranchEntry>, n: int)
    requires n in Milestones(branches)
    ensures exists i :: 0 <= i < |branches| && branches[i].props.milestoneNumber == n && IsLastFor(branches, i)
    decreases |branches|
  {
    var last := |branches| - 1;
    if branches[last].props.milestoneNumber != n {
      var front := branches[..last];
      var e :| e in branches && e.props.milestoneNumber == n;
      assert e in front by {
        var k :| 0 <= k < |branches| && branches[k] == e;
        assert k != last && front[k] == e;
      }
      LastEntryExists(front, n);
      var i :| 0 <= i < |front| && front[i].props.milestoneNumber == n && IsLastFor(front, i);
      assert branches[i] == front[i];
      assert IsLastFor(branches, i) by {
        forall j | i < j < |branches|
          ensures branches[j].props.milestoneNumber != branches[i].props.milestoneNumber
        {
          if j < last {
            assert front[j] == branches[j];
          }
        }
      }
    }
  }

  /** Each milestone number maps to the name of the last entry carrying it: the
      entry that appears later wins. */
  lemma LaterEntryWins(branches: seq<BranchEntry>, m: map<int, string>, n: int)
    requires IsMilestoneMap(branches, m) && n in m
    ensures exists i :: 0 <= i < |branches| && IsLastFor(branches, i)
              && branches[i].props.milestoneNumber == n && m[n] == branches[i].name
  {
    LastEntryExists(branches, n);
  }

  /** The entries determine the milestone map: there is at most one. */
  lemma MilestoneMapUnique(branches: seq<BranchEntry>, m1: map<int, string>, m2: map<int, string>)
    requires IsMilestoneMap(branches, m1) && IsMilestoneMap(branches, m2)
    ensures m1 == m2
  {
    forall n | n in m1
      ensures m1[n] == m2[n]
    {
      LastEntryExists(branches, n);
    }
  }

  // ---------------------------------------------------------------------------
  // The reader.

  /** `configReader` over an already-parsed configuration: the configuration
      unchanged, with its merge chain from the base branch and its milestone map. */
  method ReadConfig(config: Config, options: ReaderOptions) returns (c: Configuration)
    requires WalkIsAcyclic(config.mergeOperations, StartKey(options.baseBranch))
    ensures c.config == config
    ensures IsMergeChain(config.mergeOperations, StartKey(options.baseBranch), c.mergeTargets)
    ensures IsMilestoneMap(config.branches, c.branchNameByMilestoneNumber)
  {
    var mergeTargets := BuildMergeTargets(config, options);
    var branchNameByMilestoneNumber := BranchNameByMilestone(config);
    c := Configuration(config, mergeTargets, branchNameByMilestoneNumber);
  }
}
