// `wst push` of the older generation (src/workspace/commands/push.py): everything goes
// through master. A branch other than master is rebased onto the updated master and
// squash-merged into it; then master is pushed and the branch is removed.
module LegacyPush {
  import opened Wrappers
  import opened Repository
  import LegacyScm
  import WsUpdate

  /** The branch pushed: the argument when one is given, else `current_branch()`
      (None in a repository without branches, where `all_branches()[0]` raises). */
  function PushedBranch(branch: Option<Branch>, current: Option<Branch>): Option<Branch>
  {
    if WsUpdate.Given(branch) then branch else current
  }

  /** `checkout_branch('master')` and `update_repo()`. */
  function UpdateMasterCalls(): seq<Op>
  {
    [Checkout(LegacyScm.Master, None), Pull(PullRebase)]
  }

  /** The merge part as written: rebase the branch onto master, go back to master and
      `git merge --squash` it, which stages the branch's changes and makes no commit. */
  function MergeCallsAsWritten(b: Branch): seq<Op>
  {
    if b != LegacyScm.Master then
      [Checkout(b, None), Rebase(LegacyScm.Master), Checkout(LegacyScm.Master, None), Merge(b, true)]
    else []
  }

  /** The merge part with the squashed changes committed on master as `squash`. */
  function MergeCalls(b: Branch, squash: Hash): seq<Op>
  {
    if b != LegacyScm.Master then
      [Checkout(b, None), Rebase(LegacyScm.Master), Checkout(LegacyScm.Master, None), Merge(b, true), Commit(squash, false)]
    else []
  }

  /** `remove_branch(branch)` with its default `raises=False`: `git branch -D`, whose
      failure is ignored. */
  function Removal(b: Branch): seq<Step>
  {
    if b != LegacyScm.Master then [Step(DeleteBranch(b, true), false)] else []
  }

  /** The fatal calls as written: update master, the merge part, `push_repo()`. */
  function MainCallsAsWritten(b: Branch): seq<Op>
  {
    UpdateMasterCalls() + MergeCallsAsWritten(b) + [Push(false, false)]
  }

  /** The fatal calls with the squash merge committed. */
  function MainCalls(b: Branch, squash: Hash): seq<Op>
  {
    UpdateMasterCalls() + MergeCalls(b, squash) + [Push(false, false)]
  }

  /** `Push.run` as written. */
  function PushStepsAsWritten(branch: Option<Branch>, current: Option<Branch>): seq<Step>
  {
    match PushedBranch(branch, current)
    case None => Fatal([Raise("IndexError")])
    case Some(b) => Fatal(MainCallsAsWritten(b)) + Removal(b)
  }

  /** `Push.run` with the squash merge committed before master is pushed. */
  function PushSteps(branch: Option<Branch>, current: Option<Branch>, squash: Hash): seq<Step>
  {
    match PushedBranch(branch, current)
    case None => Fatal([Raise("IndexError")])
    case Some(b) => Fatal(MainCalls(b, squash)) + Removal(b)
  }

  /** `Push.run` as written: the squash merge is pushed without a commit. */
  method Run(repo: Repo, branch: Option<Branch>) returns (halt: Option<Op>)
    requires repo.Valid()
    modifies repo
    ensures repo.Valid()
    ensures Exec(old(repo.State()), PushStepsAsWritten(branch, HeadBranch(old(repo.State())))) == Repository.Run(repo.State(), halt)
  {
    var current := repo.CurrentBranch();
    halt := repo.Execute(PushStepsAsWritten(branch, current));
  }

  // ---- the shape of the flow ----

  /** The plan removes `b` exactly when it is not master, and only as its last,
      non-fatal step, right after the push. */
  predicate RemovesOnlyOffMaster(plan: seq<Step>, b: Branch)
  {
    && (forall i :: 0 <= i < |plan| && plan[i].op.DeleteBranch? ==>
          b != LegacyScm.Master && i == |plan| - 1 && plan[i] == Step(DeleteBranch(b, true), false))
    && (b != LegacyScm.Master ==> |plan| >= 2 && plan[|plan| - 1] == Step(DeleteBranch(b, true), false)
                                  && plan[|plan| - 2] == Step(Push(false, false), true))
  }

  /** Both plans remove the pushed branch exactly when it is not master, after the
      push. */
  lemma RemovesExactlyOffMaster(branch: Option<Branch>, current: Option<Branch>, squash: Hash, b: Branch)
    requires PushedBranch(branch, current) == Some(b)
    ensures RemovesOnlyOffMaster(PushSteps(branch, current, squash), b)
    ensures RemovesOnlyOffMaster(PushStepsAsWritten(branch, current), b)
  {
    var m1 := MainCalls(b, squash);
    var m2 := MainCallsAsWritten(b);
    NoDeletion(m1);
    NoDeletion(m2);
    RemovalAfterPush(m1, b);
    RemovalAfterPush(m2, b);
  }

  /** Fatal calls ending in the push and deleting nothing, then the removal. */
  lemma RemovalAfterPush(ops: seq<Op>, b: Branch)
    requires ops != [] && ops[|ops| - 1] == Push(false, false)
    requires forall i :: 0 <= i < |Fatal(ops)| ==> !Fatal(ops)[i].op.DeleteBranch?
    ensures RemovesOnlyOffMaster(Fatal(ops) + Removal(b), b)
  {
    var plan := Fatal(ops) + Removal(b);
    assert forall i :: 0 <= i < |ops| ==> plan[i] == Fatal(ops)[i];
    if b != LegacyScm.Master {
      assert plan[|plan| - 2] == Fatal(ops)[|ops| - 1];
    }
  }

  lemma NoDeletion(ops: seq<Op>)
    requires forall i :: 0 <= i < |ops| ==> !ops[i].DeleteBranch?
    ensures forall i :: 0 <= i < |Fatal(ops)| ==> !Fatal(ops)[i].op.DeleteBranch?
  {
  }

  // ---- what the flow does ----

  /** Master after `git pull --rebase`: the remote's commits, then the local ones it
      lacks. */
  function Pulled(s: RepoState): seq<Hash>
    requires LegacyScm.Master in s.heads && LegacyScm.Master in s.remote
  {
    s.remote[LegacyScm.Master] + Unique(s.heads[LegacyScm.Master], s.remote[LegacyScm.Master])
  }

  /** Checking out master and updating it. */
  lemma UpdateMaster(s: RepoState)
    requires ValidState(s) && ApplyAll(s, UpdateMasterCalls()).Some?
    ensures LegacyScm.Master in s.heads && LegacyScm.Master in s.remote
    ensures var t := ApplyAll(s, UpdateMasterCalls()).value;
      t.current == LegacyScm.Master && t.remote == s.remote && t.heads == s.heads[LegacyScm.Master := Pulled(s)]
  {
    var ops := UpdateMasterCalls();
    ApplyAllCons(s, ops[0], ops[1..]);
    ApplyCheckout(s, LegacyScm.Master);
    var t1 := Apply(s, ops[0]).value;
    ApplyAllCons(t1, ops[1], []);
    ApplyPullRebase(t1);
  }

  /** Going back to master and squash-merging `b`: the branches are as they were. */
  lemma CheckoutSquash(u: RepoState, b: Branch)
    requires ValidState(u) && ApplyAll(u, [Checkout(LegacyScm.Master, None), Merge(b, true)]).Some?
    ensures var v := ApplyAll(u, [Checkout(LegacyScm.Master, None), Merge(b, true)]).value;
      LegacyScm.Master in u.heads && v.current == LegacyScm.Master && v.heads == u.heads && v.remote == u.remote
  {
    var ops := [Checkout(LegacyScm.Master, None), Merge(b, true)];
    ApplyAllCons(u, ops[0], ops[1..]);
    ApplyCheckout(u, LegacyScm.Master);
    var u1 := Apply(u, ops[0]).value;
    ApplyAllCons(u1, ops[1], []);
    ApplyMerge(u1, b, true);
  }

  /** Committing on the checked-out branch and pushing it. */
  lemma CommitPush(t: RepoState, squash: Hash)
    requires ValidState(t) && t.heads != map[] && ApplyAll(t, [Commit(squash, false), Push(false, false)]).Some?
    ensures var v := ApplyAll(t, [Commit(squash, false), Push(false, false)]).value;
      var m := t.heads[t.current] + [squash];
      v.current == t.current && v.heads == t.heads[t.current := m] && v.remote == t.remote[t.current := m]
  {
    var ops := [Commit(squash, false), Push(false, false)];
    ApplyAllCons(t, ops[0], ops[1..]);
    var t1 := Apply(t, ops[0]).value;
    ApplyAllCons(t1, ops[1], []);
    ApplyPush(t1, false, false);
  }

  /** Going back to master, squash-merging `b` and committing it, then pushing master. */
  lemma SquashCommitPush(u: RepoState, b: Branch, squash: Hash)
    requires ValidState(u)
    requires ApplyAll(u, [Checkout(LegacyScm.Master, None), Merge(b, true), Commit(squash, false), Push(false, false)]).Some?
    ensures LegacyScm.Master in u.heads
    ensures var v := ApplyAll(u, [Checkout(LegacyScm.Master, None), Merge(b, true), Commit(squash, false), Push(false, false)]).value;
      var m := u.heads[LegacyScm.Master] + [squash];
      v.current == LegacyScm.Master && v.heads == u.heads[LegacyScm.Master := m] && v.remote == u.remote[LegacyScm.Master := m]
  {
    var x, y := [Checkout(LegacyScm.Master, None), Merge(b, true)], [Commit(squash, false), Push(false, false)];
    assert [Checkout(LegacyScm.Master, None), Merge(b, true), Commit(squash, false), Push(false, false)] == x + y;
    ApplyAllAppend(u, x, y);
    CheckoutSquash(u, b);
    CommitPush(ApplyAll(u, x).value, squash);
  }

  /** The same as written: the squash merge leaves the branches as they were. */
  lemma SquashPushAsWritten(u: RepoState, b: Branch)
    requires ValidState(u)
    requires ApplyAll(u, [Checkout(LegacyScm.Master, None), Merge(b, true), Push(false, false)]).Some?
    ensures LegacyScm.Master in u.heads
    ensures var v := ApplyAll(u, [Checkout(LegacyScm.Master, None), Merge(b, true), Push(false, false)]).value;
      v.current == LegacyScm.Master && v.heads == u.heads && v.remote == u.remote[LegacyScm.Master := u.heads[LegacyScm.Master]]
  {
    var x := [Checkout(LegacyScm.Master, None), Merge(b, true)];
    assert [Checkout(LegacyScm.Master, None), Merge(b, true), Push(false, false)] == x + [Push(false, false)];
    ApplyAllAppend(u, x, [Push(false, false)]);
    CheckoutSquash(u, b);
    var t := ApplyAll(u, x).value;
    ApplyAllCons(t, Push(false, false), []);
    ApplyPush(t, false, false);
  }

  /** The best-effort removal from master of a branch that exists: it succeeds. */
  lemma RemovalFromMaster(v: RepoState, b: Branch)
    requires ValidState(v) && v.current == LegacyScm.Master && b != LegacyScm.Master && b in v.heads
    ensures var w := Exec(v, Removal(b)).state;
      && Exec(v, Removal(b)).halt.None? && w.current == v.current && w.remote == v.remote && w.heads == v.heads - {b}
      && Calls(w.log) == Calls(v.log) + [DeleteBranch(b, true)]
  {
    CallsAppend(v.log, [Event(DeleteBranch(b, true), v.current)]);
  }

  /** Pushing master itself: once the run ends without a failure, master is checked
      out, updated and pushed, and no branch was removed. On master the plan with the
      squash commit runs exactly as the plan as written. */
  lemma MasterPush(s: RepoState, branch: Option<Branch>, squash: Hash)
    requires ValidState(s) && PushedBranch(branch, HeadBranch(s)) == Some(LegacyScm.Master)
    ensures var r := Exec(s, PushStepsAsWritten(branch, HeadBranch(s)));
      r.halt.None? ==>
        && LegacyScm.Master in s.heads && LegacyScm.Master in s.remote
        && r.state.current == LegacyScm.Master && r.state.heads == s.heads[LegacyScm.Master := Pulled(s)]
        && r.state.remote == s.remote[LegacyScm.Master := Pulled(s)]
    ensures Exec(s, PushSteps(branch, HeadBranch(s), squash)) == Exec(s, PushStepsAsWritten(branch, HeadBranch(s)))
  {
    MasterPushPlan(branch, HeadBranch(s), squash);
    UpdateMasterPush(s);
  }

  /** Pushing master is updating it and pushing it; nothing is removed. */
  lemma MasterPushPlan(branch: Option<Branch>, current: Option<Branch>, squash: Hash)
    requires PushedBranch(branch, current) == Some(LegacyScm.Master)
    ensures PushSteps(branch, current, squash) == Fatal(UpdateMasterCalls() + [Push(false, false)])
    ensures PushStepsAsWritten(branch, current) == Fatal(UpdateMasterCalls() + [Push(false, false)])
  {
    var ops := UpdateMasterCalls() + [Push(false, false)];
    assert MainCalls(LegacyScm.Master, squash) == ops;
    assert MainCallsAsWritten(LegacyScm.Master) == ops;
    assert Fatal(ops) + [] == Fatal(ops);
  }

  /** Updating master and pushing it, run to the end. */
  lemma UpdateMasterPush(s: RepoState)
    requires ValidState(s)
    ensures var r := Exec(s, Fatal(UpdateMasterCalls() + [Push(false, false)]));
      r.halt.None? ==>
        && LegacyScm.Master in s.heads && LegacyScm.Master in s.remote
        && r.state.current == LegacyScm.Master && r.state.heads == s.heads[LegacyScm.Master := Pulled(s)]
        && r.state.remote == s.remote[LegacyScm.Master := Pulled(s)]
  {
    var a := UpdateMasterCalls();
    var ops := a + [Push(false, false)];
    FatalIsApplyAll(s, ops);
    if ApplyAll(s, ops).Some? {
      ApplyAllAppend(s, a, [Push(false, false)]);
      UpdateMaster(s);
      var t := ApplyAll(s, a).value;
      ApplyAllCons(t, Push(false, false), []);
    }
  }

  /** Pushing a branch other than master: once the run ends without a failure, the
      calls were update master, rebase the branch onto it, squash-merge and commit it
      on master, push, remove the branch, in that order. Master then holds the updated
      master and the squash commit, the remote has it, the branch is gone, and every
      other branch is as it was. */
  lemma PushOutcome(s: RepoState, branch: Option<Branch>, squash: Hash, b: Branch)
    requires ValidState(s) && PushedBranch(branch, HeadBranch(s)) == Some(b) && b != LegacyScm.Master
    ensures var r := Exec(s, PushSteps(branch, HeadBranch(s), squash));
      r.halt.None? ==>
        && LegacyScm.Master in s.heads && LegacyScm.Master in s.remote && b in s.heads
        && Calls(r.state.log) == Calls(s.log) + MainCalls(b, squash) + [DeleteBranch(b, true)]
        && r.state.current == LegacyScm.Master
        && r.state.heads == s.heads[LegacyScm.Master := Pulled(s) + [squash]] - {b}
        && r.state.remote == s.remote[LegacyScm.Master := Pulled(s) + [squash]]
  {
    var m := MainCalls(b, squash);
    assert PushSteps(branch, HeadBranch(s), squash) == Fatal(m) + Removal(b);
    ExecAppend(s, Fatal(m), Removal(b));
    FatalIsApplyAll(s, m);
    if ApplyAll(s, m).Some? {
      var v := MainOutcome(s, b, squash);
      FatalComplete(s, m);
      RemovalFromMaster(v, b);
      var w := Exec(v, Removal(b)).state;
      assert Calls(w.log) == Calls(s.log) + m + [DeleteBranch(b, true)];
    }
  }

  /** The fatal part of `PushOutcome`. */
  lemma MainOutcome(s: RepoState, b: Branch, squash: Hash) returns (v: RepoState)
    requires ValidState(s) && b != LegacyScm.Master
    requires ApplyAll(s, MainCalls(b, squash)).Some?
    ensures v == ApplyAll(s, MainCalls(b, squash)).value
    ensures LegacyScm.Master in s.heads && LegacyScm.Master in s.remote && b in s.heads && b in v.heads
    ensures v.current == LegacyScm.Master
    ensures v.heads - {b} == s.heads[LegacyScm.Master := Pulled(s) + [squash]] - {b}
    ensures v.remote == s.remote[LegacyScm.Master := Pulled(s) + [squash]]
  {
    var a := UpdateMasterCalls();
    var r := [Checkout(b, None), Rebase(LegacyScm.Master)];
    var c := [Checkout(LegacyScm.Master, None), Merge(b, true), Commit(squash, false), Push(false, false)];
    assert MainCalls(b, squash) == a + (r + c);
    ApplyAllAppend(s, a, r + c);
    UpdateMaster(s);
    var t := ApplyAll(s, a).value;
    ApplyAllAppend(t, r, c);
    CheckoutRebase(t, b, LegacyScm.Master);
    var u := ApplyAll(t, r).value;
    SquashCommitPush(u, b, squash);
    v := ApplyAll(u, c).value;
    MasterAfterSquash(s, t, u, v, b, squash);
  }

  /** Master updated, the branch rebased onto it, then the squash commit on master and
      pushed: only master and the branch changed, and master is on the remote. */
  lemma MasterAfterSquash(s: RepoState, t: RepoState, u: RepoState, v: RepoState, b: Branch, squash: Hash)
    requires LegacyScm.Master in s.heads && LegacyScm.Master in s.remote && b != LegacyScm.Master
    requires t.remote == s.remote && t.heads == s.heads[LegacyScm.Master := Pulled(s)]
    requires b in t.heads && LegacyScm.Master in t.heads && u.remote == t.remote
    requires u.heads == t.heads[b := t.heads[LegacyScm.Master] + Unique(t.heads[b], t.heads[LegacyScm.Master])]
    requires LegacyScm.Master in u.heads
    requires v.heads == u.heads[LegacyScm.Master := u.heads[LegacyScm.Master] + [squash]]
    requires v.remote == u.remote[LegacyScm.Master := u.heads[LegacyScm.Master] + [squash]]
    ensures b in s.heads && b in v.heads
    ensures v.heads - {b} == s.heads[LegacyScm.Master := Pulled(s) + [squash]] - {b}
    ensures v.remote == s.remote[LegacyScm.Master := Pulled(s) + [squash]]
  {
    assert u.heads[LegacyScm.Master] == Pulled(s);
    var w := s.heads[LegacyScm.Master := Pulled(s) + [squash]] - {b};
    assert (v.heads - {b}).Keys == w.Keys;
    forall x | x in w ensures (v.heads - {b})[x] == w[x] {
    }
  }

  /** The run the tests follow: with master and one other branch, only master is left. */
  lemma OnlyMasterRemains(s: RepoState, branch: Option<Branch>, squash: Hash, b: Branch)
    requires ValidState(s) && PushedBranch(branch, HeadBranch(s)) == Some(b) && b != LegacyScm.Master
    requires s.heads.Keys == {LegacyScm.Master, b}
    ensures var r := Exec(s, PushSteps(branch, HeadBranch(s), squash));
      r.halt.None? ==> r.state.heads.Keys == {LegacyScm.Master}
  {
    PushOutcome(s, branch, squash, b);
  }

  /** The fatal part of the run as written. */
  lemma MainOutcomeAsWritten(s: RepoState, b: Branch) returns (v: RepoState)
    requires ValidState(s) && b != LegacyScm.Master
    requires ApplyAll(s, MainCallsAsWritten(b)).Some?
    ensures v == ApplyAll(s, MainCallsAsWritten(b)).value
    ensures LegacyScm.Master in s.heads && LegacyScm.Master in s.remote && b in s.heads && b in v.heads
    ensures v.current == LegacyScm.Master
    ensures v.heads - {b} == s.heads[LegacyScm.Master := Pulled(s)] - {b}
    ensures v.remote == s.remote[LegacyScm.Master := Pulled(s)]
  {
    var a := UpdateMasterCalls();
    var r := [Checkout(b, None), Rebase(LegacyScm.Master)];
    var c := [Checkout(LegacyScm.Master, None), Merge(b, true), Push(false, false)];
    assert MainCallsAsWritten(b) == a + (r + c);
    ApplyAllAppend(s, a, r + c);
    UpdateMaster(s);
    var t := ApplyAll(s, a).value;
    ApplyAllAppend(t, r, c);
    CheckoutRebase(t, b, LegacyScm.Master);
    var u := ApplyAll(t, r).value;
    SquashPushAsWritten(u, b);
    v := ApplyAll(u, c).value;
    MasterAfterMerge(s, t, u, v, b);
  }

  /** The same with nothing committed on master: master as updated is pushed. */
  lemma MasterAfterMerge(s: RepoState, t: RepoState, u: RepoState, v: RepoState, b: Branch)
    requires LegacyScm.Master in s.heads && LegacyScm.Master in s.remote && b != LegacyScm.Master
    requires t.remote == s.remote && t.heads == s.heads[LegacyScm.Master := Pulled(s)]
    requires b in t.heads && LegacyScm.Master in t.heads && u.remote == t.remote
    requires u.heads == t.heads[b := t.heads[LegacyScm.Master] + Unique(t.heads[b], t.heads[LegacyScm.Master])]
    requires LegacyScm.Master in u.heads
    requires v.heads == u.heads && v.remote == u.remote[LegacyScm.Master := u.heads[LegacyScm.Master]]
    ensures b in s.heads && b in v.heads
    ensures v.heads - {b} == s.heads[LegacyScm.Master := Pulled(s)] - {b}
    ensures v.remote == s.remote[LegacyScm.Master := Pulled(s)]
  {
    assert u.heads[LegacyScm.Master] == Pulled(s);
    var w := s.heads[LegacyScm.Master := Pulled(s)] - {b};
    assert (v.heads - {b}).Keys == w.Keys;
    forall x | x in w ensures (v.heads - {b})[x] == w[x] {
    }
  }

  /** Pushing a branch other than master as written: once the run ends without a
      failure, master is checked out, updated and pushed, the branch is gone, and every
      other branch is as it was. Master gains nothing of the branch. */
  lemma PushOutcomeAsWritten(s: RepoState, branch: Option<Branch>, b: Branch)
    requires ValidState(s) && PushedBranch(branch, HeadBranch(s)) == Some(b) && b != LegacyScm.Master
    ensures var r := Exec(s, PushStepsAsWritten(branch, HeadBranch(s)));
      r.halt.None? ==>
        && LegacyScm.Master in s.heads && LegacyScm.Master in s.remote && b in s.heads
        && Calls(r.state.log) == Calls(s.log) + MainCallsAsWritten(b) + [DeleteBranch(b, true)]
        && r.state.current == LegacyScm.Master
        && r.state.heads == s.heads[LegacyScm.Master := Pulled(s)] - {b}
        && r.state.remote == s.remote[LegacyScm.Master := Pulled(s)]
  {
    var m := MainCallsAsWritten(b);
    assert PushStepsAsWritten(branch, HeadBranch(s)) == Fatal(m) + Removal(b);
    ExecAppend(s, Fatal(m), Removal(b));
    FatalIsApplyAll(s, m);
    if ApplyAll(s, m).Some? {
      var v := MainOutcomeAsWritten(s, b);
      FatalComplete(s, m);
      RemovalFromMaster(v, b);
    }
  }

  /** As written, a commit that only the pushed branch had is on no branch and not on
      the remote once the run ends: the squash merge staged it, master was pushed
      without it, and the branch was force-deleted. */
  lemma AsWrittenLosesCommits(s: RepoState, branch: Option<Branch>, b: Branch, h: Hash)
    requires ValidState(s) && PushedBranch(branch, HeadBranch(s)) == Some(b) && b != LegacyScm.Master
    requires s.heads.Keys == {LegacyScm.Master, b} && LegacyScm.Master in s.remote
    requires h in s.heads[b] && h !in s.heads[LegacyScm.Master] && h !in s.remote[LegacyScm.Master]
    ensures var r := Exec(s, PushStepsAsWritten(branch, HeadBranch(s)));
      r.halt.None? ==>
        && r.state.heads.Keys == {LegacyScm.Master} && LegacyScm.Master in r.state.remote
        && h !in r.state.heads[LegacyScm.Master] && h !in r.state.remote[LegacyScm.Master]
  {
    var m := MainCallsAsWritten(b);
    assert PushStepsAsWritten(branch, HeadBranch(s)) == Fatal(m) + Removal(b);
    ExecAppend(s, Fatal(m), Removal(b));
    FatalIsApplyAll(s, m);
    if ApplyAll(s, m).Some? {
      var v := MainOutcomeAsWritten(s, b);
      RemovalFromMaster(v, b);
      assert v.heads[LegacyScm.Master] == Pulled(s) by {
        assert (v.heads - {b})[LegacyScm.Master] == v.heads[LegacyScm.Master];
      }
    }
  }
}
