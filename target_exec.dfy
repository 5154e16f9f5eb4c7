/** The timestamp rebuild rule of src/target.rs: a target's `cmds` run only
    when one of its inputs is newer than its path, its `always_cmds` run
    every time, and the first command that fails ends the build of the
    target.

    The file system and the processes are parameters: `timestamp` is the
    path's time before the commands run, `finalTimestamp` its time after
    them, and `succeeds[i]` / `alwaysSucceeds[i]` say whether the i-th
    command of `cmds` / `always_cmds` exits successfully when launched. */
module TargetExec {
  import opened Wrappers
  import opened Timestamps
  import Targets

  type Command = Targets.Command

  datatype Target = Target(path: string, cmds: seq<Command>, alwaysCmds: seq<Command>)

  /** The index of the first false, or |oks| when there is none. */
  function FirstFalse(oks: seq<bool>): (k: nat)
    ensures k <= |oks|
    ensures forall i | 0 <= i < k :: oks[i]
    ensures k < |oks| ==> !oks[k]
  {
    if oks == [] || !oks[0] then 0
    else
      var k := FirstFalse(oks[1..]);
      assert forall i | 1 <= i < k + 1 :: oks[i] == oks[1..][i - 1];
      k + 1
  }

  /** The commands due for this run, in the order they are launched. */
  function Due(t: Target, stale: bool): seq<Command> {
    (if stale then t.cmds else []) + t.alwaysCmds
  }

  /** Whether each due command succeeds when it is launched. */
  function DueOutcomes(stale: bool, succeeds: seq<bool>, alwaysSucceeds: seq<bool>): seq<bool> {
    (if stale then succeeds else []) + alwaysSucceeds
  }

  /** The commands a run launches: the due ones up to and including the
      first that fails. */
  function Launched(due: seq<Command>, outcomes: seq<bool>): (l: seq<Command>)
    requires |outcomes| == |due|
    ensures |l| <= |due| && l == due[..|l|]
  {
    var f := FirstFalse(outcomes);
    if f < |due| then due[..f + 1] else due
  }

  /** One of `execute`'s loops: launch the commands in order and stop at
      the first that fails; `ok` says that none failed. */
  method RunInOrder(cmds: seq<Command>, succeeds: seq<bool>)
    returns (ok: bool, launched: seq<Command>)
    requires |succeeds| == |cmds|
    ensures ok <==> FirstFalse(succeeds) == |cmds|
    ensures launched == Launched(cmds, succeeds)
  {
    launched := [];
    for i := 0 to |cmds|
      invariant launched == cmds[..i] && forall j | 0 <= j < i :: succeeds[j]
    {
      launched := launched + [cmds[i]];
      if !succeeds[i] {
        FirstFalseIs(succeeds, i);
        return false, launched;
      }
    }
    FirstFalseIs(succeeds, |cmds|);
    assert cmds[..|cmds|] == cmds;
    return true, launched;
  }

  /** Launching two lists one after the other launches the second only
      when none of the first fails. */
  lemma LaunchedConcat(a: seq<Command>, oa: seq<bool>, b: seq<Command>, ob: seq<bool>)
    requires |oa| == |a| && |ob| == |b|
    ensures FirstFalse(oa) < |a| ==> Launched(a + b, oa + ob) == Launched(a, oa)
    ensures FirstFalse(oa) == |a| ==> Launched(a + b, oa + ob) == a + Launched(b, ob)
    ensures FirstFalse(oa + ob) == |a + b| <==> FirstFalse(oa) == |a| && FirstFalse(ob) == |b|
  {
    var o := oa + ob;
    var fa := FirstFalse(oa);
    if fa < |a| {
      FirstFalseIs(o, fa);
      assert (a + b)[..fa + 1] == a[..fa + 1];
    } else {
      var fb := FirstFalse(ob);
      assert forall i | 0 <= i < |a| + fb :: o[i] == if i < |a| then oa[i] else ob[i - |a|];
      FirstFalseIs(o, |a| + fb);
      if fb < |b| {
        assert (a + b)[..|a| + fb + 1] == a + b[..fb + 1];
      }
    }
  }

  /** `Target::execute`: `r` is the target's new time, or None when a
      command failed; `launched` the commands started, in order. */
  method Execute(t: Target, inputs: seq<nat>, timestamp: nat, finalTimestamp: nat,
                 succeeds: seq<bool>, alwaysSucceeds: seq<bool>)
    returns (r: Option<nat>, launched: seq<Command>)
    requires |succeeds| == |t.cmds| && |alwaysSucceeds| == |t.alwaysCmds|
    ensures var stale := NewestInput(inputs) > timestamp;
      var outcomes := DueOutcomes(stale, succeeds, alwaysSucceeds);
      && launched == Launched(Due(t, stale), outcomes)
      && (r.Some? <==> FirstFalse(outcomes) == |outcomes|)
      && (r.Some? ==> r.value == Max(NewestInput(inputs), finalTimestamp))
  {
    var newestInput := NewestInput(inputs);
    var cmds, oks := [], [];
    if newestInput > timestamp {
      cmds, oks := t.cmds, succeeds;
    }
    LaunchedConcat(cmds, oks, t.alwaysCmds, alwaysSucceeds);
    var ok;
    ok, launched := RunInOrder(cmds, oks);
    if !ok {
      return None, launched;
    }
    var alwaysLaunched;
    ok, alwaysLaunched := RunInOrder(t.alwaysCmds, alwaysSucceeds);
    launched := launched + alwaysLaunched;
    if !ok {
      return None, launched;
    }
    return Some(Max(newestInput, finalTimestamp)), launched;
  }

  /** A target whose path is at least as new as all its inputs launches only
      (a prefix of) its `always_cmds`. */
  lemma UpToDateRunsOnlyAlways(t: Target, inputs: seq<nat>, timestamp: nat,
                               succeeds: seq<bool>, alwaysSucceeds: seq<bool>)
    requires |succeeds| == |t.cmds| && |alwaysSucceeds| == |t.alwaysCmds|
    requires NewestInput(inputs) <= timestamp
    ensures var l := Launched(Due(t, false), DueOutcomes(false, succeeds, alwaysSucceeds));
      l == t.alwaysCmds[..|l|]
  {
    assert Due(t, false) == t.alwaysCmds;
  }

  /** A stale target launches all of its `cmds`, in order, before any of its
      `always_cmds`, unless one of them fails; a failing command is the
      last launched. */
  lemma StaleRunsCmdsFirst(t: Target, succeeds: seq<bool>, alwaysSucceeds: seq<bool>)
    requires |succeeds| == |t.cmds| && |alwaysSucceeds| == |t.alwaysCmds|
    ensures var outcomes := DueOutcomes(true, succeeds, alwaysSucceeds);
      var l := Launched(Due(t, true), outcomes);
      && (FirstFalse(succeeds) == |succeeds| ==> |l| >= |t.cmds| && l[..|t.cmds|] == t.cmds)
      && (FirstFalse(succeeds) < |succeeds| ==> l == t.cmds[..FirstFalse(succeeds) + 1])
  {
    var outcomes := DueOutcomes(true, succeeds, alwaysSucceeds);
    var f := FirstFalse(succeeds);
    if f < |succeeds| {
      assert forall i | 0 <= i < f :: outcomes[i];
      assert !outcomes[f];
      assert FirstFalse(outcomes) == f;
    } else {
      assert forall i | 0 <= i < |succeeds| :: outcomes[i];
      assert FirstFalse(outcomes) >= |succeeds|;
    }
  }

  /** The first false is where it is: before it everything succeeded. */
  lemma FirstFalseIs(oks: seq<bool>, k: nat)
    requires k <= |oks| && (forall i | 0 <= i < k :: oks[i]) && (k < |oks| ==> !oks[k])
    ensures FirstFalse(oks) == k
  {
  }
}
