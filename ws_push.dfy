// `wst push` of the current generation (workspace/commands/push.py): optionally merge
// the branch into its parent first, push, and remove the merged branch.
module WsPush {
  import opened Wrappers
  import opened Text
  import opened Repository
  import WsScm
  import opened WsUpdate

  /** `self.branch or current`. */
  function PushedBranch(current: Option<Branch>, branch: Option<Branch>): (r: Option<Branch>)
    ensures branch.Some? && branch.value != "" ==> r == branch
    ensures branch.None? || branch.value == "" ==> r == current
  {
    if branch.Some? && branch.value != "" then branch else current
  }

  /** The parent a merge goes into: None when no merge is asked for or the branch has
      no parent (the request is then ignored). */
  function MergeParent(b: Option<Branch>, merge: bool, indicator: string): (r: Option<Branch>)
    requires |indicator| > 0
    ensures r.Some? ==> merge && b.Some? && r == RebaseParent(b.value, indicator)
    ensures merge && b.Some? && RebaseParent(b.value, indicator).Some? ==> r.Some?
  {
    if merge && b.Some? then RebaseParent(b.value, indicator) else None
  }

  /** Checkout the branch, rebase it onto the parent, checkout the parent, merge. */
  function MergeCalls(b: Branch, p: Branch): seq<Op>
  {
    [CheckoutCall(b), Rebase(p), CheckoutCall(p), Merge(b, false)]
  }

  /** `remove_branch(branch, remote=True)`: both calls are `raises=False`. */
  function RemoveSteps(b: Branch): seq<Step>
  {
    [Step(DeleteBranch(b, false), false), Step(DeleteRemoteBranch(b), false)]
  }

  /** The fatal calls of `Push.run`, given the branch checked out when it starts. The
      update is `Update.run` for this repository, which raises on failure; it runs on
      the branch checked out at that point: the parent when merging. The push is
      `push_repo(force=self.force)` as written: it passes no remote, so on a branch
      without an upstream it raises a TypeError instead of setting one; the call
      without `--set-upstream` fails there too. */
  function MainCalls(current: Option<Branch>, branch: Option<Branch>, merge: bool, force: bool, indicator: string): seq<Op>
    requires |indicator| > 0
  {
    var b := PushedBranch(current, branch);
    if merge && b.None? then [Raise("TypeError")]
    else match MergeParent(b, merge, indicator)
      case Some(p) => MergeMain(b.value, p, force, indicator)
      case None => PlainMain(current, force, indicator)
  }

  /** Checkout the parent, update it, merge the branch into it, push it. */
  function MergeMain(b: Branch, p: Branch, force: bool, indicator: string): seq<Op>
    requires |indicator| > 0
  {
    [CheckoutCall(p)] + UpdateRepoCalls(Some(CheckoutTarget(p)), indicator) + MergeCalls(b, p) + [Push(force, false)]
  }

  /** Update the checked-out branch, push it. */
  function PlainMain(current: Option<Branch>, force: bool, indicator: string): seq<Op>
    requires |indicator| > 0
  {
    UpdateRepoCalls(current, indicator) + [Push(force, false)]
  }

  /** `Push.run` as steps: the fatal calls, then the removal after a merge. */
  function PushSteps(current: Option<Branch>, branch: Option<Branch>, merge: bool, force: bool, indicator: string): seq<Step>
    requires |indicator| > 0
  {
    Fatal(MainCalls(current, branch, merge, force, indicator)) + PushTail(current, branch, merge, indicator)
  }

  /** `Push.run()`. */
  method Run(repo: Repo, branch: Option<Branch>, merge: bool, force: bool, indicator: string) returns (halt: Option<Op>)
    requires repo.Valid() && |indicator| > 0
    modifies repo
    ensures repo.Valid()
    ensures Exec(old(repo.State()), PushSteps(HeadBranch(old(repo.State())), branch, merge, force, indicator))
            == Repository.Run(repo.State(), halt)
  {
    var current := repo.CurrentBranch();
    halt := repo.Execute(PushSteps(current, branch, merge, force, indicator));
  }

  // ---- what a push does ----

  /** `--merge` on a branch without a parent is ignored: the push is the plain one. */
  lemma MergeIgnoredWithoutParent(current: Option<Branch>, branch: Option<Branch>, force: bool, indicator: string)
    requires |indicator| > 0
    requires PushedBranch(current, branch).Some? && RebaseParent(PushedBranch(current, branch).value, indicator).None?
    ensures PushSteps(current, branch, true, force, indicator) == PushSteps(current, branch, false, force, indicator)
  {
  }

  predicate Removes(op: Op) { op.DeleteBranch? || op.DeleteRemoteBranch? }

  /** The update's calls never remove a branch. */
  lemma UpdateRemovesNothing(branch: Option<Branch>, indicator: string)
    requires |indicator| > 0
    ensures forall op :: op in UpdateRepoCalls(branch, indicator) ==> !Removes(op)
  {
  }

  /** Nor do the merge's own calls. */
  lemma MergeMainRemovesNothing(b: Branch, p: Branch, force: bool, u: seq<Op>)
    requires forall op :: op in u ==> !Removes(op)
    ensures forall op :: op in [CheckoutCall(p)] + u + MergeCalls(b, p) + [Push(force, false)] ==> !Removes(op)
  {
  }

  /** The fatal calls never remove a branch. */
  lemma MainCallsRemoveNothing(current: Option<Branch>, branch: Option<Branch>, merge: bool, force: bool, indicator: string)
    requires |indicator| > 0
    ensures forall op :: op in MainCalls(current, branch, merge, force, indicator) ==> !Removes(op)
  {
    var b := PushedBranch(current, branch);
    if !(merge && b.None?) {
      match MergeParent(b, merge, indicator)
      case Some(p) =>
        var t := CheckoutTarget(p);
        UpdateRemovesNothing(Some(t), indicator);
        MergeMainRemovesNothing(b.value, p, force, UpdateRepoCalls(Some(t), indicator));
      case None =>
        UpdateRemovesNothing(current, indicator);
    }
  }

  /** The steps of a plan that remove a branch, in order. */
  function Removals(plan: seq<Step>): (r: seq<Step>)
    ensures forall x :: x in r <==> x in plan && Removes(x.op)
  {
    if plan == [] then [] else (if Removes(plan[0].op) then [plan[0]] else []) + Removals(plan[1..])
  }

  lemma {:induction false} RemovalsAppend(p: seq<Step>, q: seq<Step>)
    ensures Removals(p + q) == Removals(p) + Removals(q)
    decreases |p|
  {
    if p == [] {
      assert p + q == q;
    } else {
      assert (p + q)[0] == p[0] && (p + q)[1..] == p[1..] + q;
      RemovalsAppend(p[1..], q);
    }
  }

  /** A plan of calls none of which removes a branch has no removal steps. */
  lemma {:induction false} FatalRemovesNothing(ops: seq<Op>)
    requires forall op :: op in ops ==> !Removes(op)
    ensures Removals(Fatal(ops)) == []
    decreases |ops|
  {
    if ops != [] {
      assert ops[0] in ops;
      assert forall op :: op in ops[1..] ==> op in ops;
      RemovalsAppend([Step(ops[0], true)], Fatal(ops[1..]));
      FatalRemovesNothing(ops[1..]);
    }
  }

  /** Fatal calls that remove nothing contribute no removal. */
  lemma RemovalsAfter(ops: seq<Op>, tail: seq<Step>)
    requires forall op :: op in ops ==> !Removes(op)
    ensures Removals(Fatal(ops) + tail) == Removals(tail)
  {
    FatalRemovesNothing(ops);
    RemovalsAppend(Fatal(ops), tail);
  }

  lemma RemoveStepsRemove(b: Branch)
    ensures Removals(RemoveSteps(b)) == RemoveSteps(b)
  {
    var q := RemoveSteps(b);
    assert Removes(q[0].op) && Removes(q[1].op);
    assert q[1..][1..] == [];
    assert Removals(q[1..]) == [q[1]] + Removals([]);
    assert Removals(q) == [q[0]] + Removals(q[1..]);
  }

  /** What follows the fatal calls of `Push.run`. */
  function PushTail(current: Option<Branch>, branch: Option<Branch>, merge: bool, indicator: string): seq<Step>
    requires |indicator| > 0
  {
    var b := PushedBranch(current, branch);
    match MergeParent(b, merge, indicator) case Some(_) => RemoveSteps(b.value) case None => []
  }

  /** The only removals `Push.run` makes are the best-effort deletion of the pushed
      branch, locally then on the remote, and only after a merge into its parent. */
  lemma RemovalOnlyAfterMerge(current: Option<Branch>, branch: Option<Branch>, merge: bool, force: bool, indicator: string)
    requires |indicator| > 0
    ensures var b := PushedBranch(current, branch);
      Removals(PushSteps(current, branch, merge, force, indicator))
      == if MergeParent(b, merge, indicator).Some? then RemoveSteps(b.value) else []
  {
    MainCallsRemoveNothing(current, branch, merge, force, indicator);
    RemovalsAfter(MainCalls(current, branch, merge, force, indicator), PushTail(current, branch, merge, indicator));
    var b := PushedBranch(current, branch);
    if MergeParent(b, merge, indicator).Some? {
      RemoveStepsRemove(b.value);
    }
  }

  /** Without a merge the only calls are the update's and the push itself: no other
      branch is checked out. */
  lemma NoMergeNoCheckout(current: Option<Branch>, branch: Option<Branch>, force: bool, indicator: string)
    requires |indicator| > 0
    ensures PushSteps(current, branch, false, force, indicator) == Fatal(UpdateRepoCalls(current, indicator) + [Push(force, false)])
    ensures forall op :: op in MainCalls(current, branch, false, force, indicator) && op.Checkout? ==>
              current.Some? && (op.branch == current.value || Some(op.branch) == RebaseParent(current.value, indicator))
  {
    var calls := UpdateRepoCalls(current, indicator) + [Push(force, false)];
    assert MainCalls(current, branch, false, force, indicator) == calls;
    assert PushTail(current, branch, false, indicator) == [];
    assert Fatal(calls) + [] == Fatal(calls);
    UpdateCheckouts(current, indicator);
  }

  /** The update checks out only the branch and its parent. */
  lemma UpdateCheckouts(current: Option<Branch>, indicator: string)
    requires |indicator| > 0
    ensures forall op :: op in UpdateRepoCalls(current, indicator) && op.Checkout? ==>
              current.Some? && (op.branch == current.value || Some(op.branch) == RebaseParent(current.value, indicator))
  {
  }

  /** CheckoutCall without `-B`. */
  lemma PlainCheckout(b: Branch)
    requires '/' !in b
    ensures CheckoutCall(b) == Checkout(b, None)
  {
  }

  /** Checking out the parent, merging the branch into it and pushing it. */
  lemma MergeAndPush(t: RepoState, b: Branch, p: Branch, force: bool)
    requires ValidState(t) && ApplyAll(t, [Checkout(p, None), Merge(b, false), Push(force, false)]).Some?
    ensures var u := ApplyAll(t, [Checkout(p, None), Merge(b, false), Push(force, false)]).value;
      && u.current == p && p in t.heads && b in t.heads
      && u.heads == t.heads[p := t.heads[p] + Unique(t.heads[b], t.heads[p])]
      && u.remote == t.remote[p := u.heads[p]]
  {
    var ops := [Checkout(p, None), Merge(b, false), Push(force, false)];
    ApplyAllCons(t, ops[0], ops[1..]);
    ApplyCheckout(t, p);
    var t1 := Apply(t, ops[0]).value;
    ApplyAllCons(t1, ops[1], ops[2..]);
    ApplyMerge(t1, b, false);
    var t2 := Apply(t1, ops[1]).value;
    ApplyAllCons(t2, ops[2], []);
    ApplyPush(t2, force, false);
  }

  /** A merged branch, all of whose commits are on the checked-out branch, is deleted
      locally and, where it exists, on the remote. */
  lemma RemoveMerged(u: RepoState, b: Branch)
    requires ValidState(u) && b in u.heads && b != u.current
    requires u.heads != map[] && forall h :: h in u.heads[b] ==> h in u.heads[u.current]
    ensures var v := Exec(u, RemoveSteps(b));
      && v.halt.None? && v.state.current == u.current
      && v.state.heads == u.heads - {b} && v.state.remote == u.remote - {b}
      && Calls(v.state.log) == Calls(u.log) + [DeleteBranch(b, false)] + (if b in u.remote then [DeleteRemoteBranch(b)] else [])
  {
    var u1 := Apply(u, DeleteBranch(b, false)).value;
    assert RemoveSteps(b)[1..] == [Step(DeleteRemoteBranch(b), false)];
    assert Exec(u, RemoveSteps(b)) == Exec(u1, RemoveSteps(b)[1..]);
    CallsAppend(u.log, [Event(DeleteBranch(b, false), u.current)]);
    if b in u.remote {
      var u2 := Apply(u1, DeleteRemoteBranch(b)).value;
      CallsAppend(u1.log, [Event(DeleteRemoteBranch(b), u1.current)]);
    }
  }

  /** The fatal calls of a merging push all succeeded: the parent is checked out,
      pushed, and holds every commit the branch had. */
  lemma MergedMain(s: RepoState, p: Branch, b: Branch, force: bool)
    requires ValidState(s) && p != b
    requires ApplyAll(s, [Checkout(p, None), Pull(FastForwardOnly), Checkout(b, None), Rebase(p)]
                         + [Checkout(p, None), Merge(b, false), Push(force, false)]).Some?
    ensures var u := ApplyAll(s, [Checkout(p, None), Pull(FastForwardOnly), Checkout(b, None), Rebase(p)]
                                 + [Checkout(p, None), Merge(b, false), Push(force, false)]).value;
      && u.current == p && p in u.heads && b in u.heads && b in s.heads && u.heads != map[]
      && p in u.remote && u.remote[p] == u.heads[p]
      && (b in u.remote <==> b in s.remote)
      && (forall h :: h in s.heads[b] ==> h in u.heads[p])
      && (forall h :: h in u.heads[b] ==> h in u.heads[p])
  {
    var up := [Checkout(p, None), Pull(FastForwardOnly), Checkout(b, None), Rebase(p)];
    var mp := [Checkout(p, None), Merge(b, false), Push(force, false)];
    ApplyAllAppend(s, up, mp);
    ParentRebase(s, p, b, FastForwardOnly);
    var t := ApplyAll(s, up).value;
    MergeAndPush(t, b, p, force);
  }

  /** The steps of `wst push --merge` on a child branch of a plain parent. */
  lemma MergePlan(b: Branch, p: Branch, force: bool, indicator: string)
    requires |indicator| > 0
    requires RebaseParent(b, indicator) == Some(p) && '/' !in p && '/' !in b
    ensures PushSteps(Some(b), None, true, force, indicator) == MergeSteps(b, p, force)
  {
    WsScm.ParentHasNoParent(b, indicator);
    PlainCheckout(p);
    PlainCheckout(b);
    assert MergeMain(b, p, force, indicator) == MergeMainSteps(b, p, force);
  }

  /** The merge, push and removal steps for branch `b` (checked out) and parent `p`. */
  function MergeSteps(b: Branch, p: Branch, force: bool): seq<Step>
  {
    Fatal(MergeMainSteps(b, p, force)) + RemoveSteps(b)
  }

  /** The fatal part of those steps. */
  function MergeMainSteps(b: Branch, p: Branch, force: bool): seq<Op>
  {
    [Checkout(p, None), Pull(FastForwardOnly), Checkout(b, None), Rebase(p)]
    + [Checkout(p, None), Merge(b, false), Push(force, false)]
  }

  /** Those steps run to the end: b was merged into p, p was pushed, b was removed. */
  lemma MergeStepsComplete(s: RepoState, p: Branch, force: bool)
    requires ValidState(s) && s.heads != map[] && p != s.current
    requires Exec(s, Fatal(MergeMainSteps(s.current, p, force))).halt.None?
    ensures var b := s.current;
      var run := Exec(s, MergeSteps(b, p, force));
      && run.halt.None?
      && Calls(run.state.log) == Calls(s.log) + MergeMainSteps(b, p, force)
           + [DeleteBranch(b, false)] + (if b in s.remote then [DeleteRemoteBranch(b)] else [])
      && run.state.current == p && p in run.state.heads && b !in run.state.heads && b !in run.state.remote
      && p in run.state.remote && run.state.remote[p] == run.state.heads[p]
      && (forall h :: h in s.heads[b] ==> h in run.state.heads[p])
  {
    var b := s.current;
    var main := MergeMainSteps(b, p, force);
    ExecAppend(s, Fatal(main), RemoveSteps(b));
    FatalComplete(s, main);
    MergedMain(s, p, b, force);
    RemoveMerged(Exec(s, Fatal(main)).state, b);
  }

  /** The fatal part keeps every branch, wherever it stops. */
  lemma MergeMainKeepsBranches(s: RepoState, p: Branch, force: bool)
    requires ValidState(s)
    ensures Exec(s, Fatal(MergeMainSteps(s.current, p, force))).state.heads.Keys == s.heads.Keys
  {
    var main := MergeMainSteps(s.current, p, force);
    assert forall i :: 0 <= i < |main| ==> KeepsBranches(main[i]);
    FatalKeepsBranches(s, main);
  }

  /** Those steps stopped before the end: every branch is still there. */
  lemma MergeStepsHalted(s: RepoState, p: Branch, force: bool)
    requires ValidState(s) && Exec(s, Fatal(MergeMainSteps(s.current, p, force))).halt.Some?
    ensures var run := Exec(s, MergeSteps(s.current, p, force));
      run.halt.Some? && run.state.heads.Keys == s.heads.Keys
  {
    ExecHalted(s, Fatal(MergeMainSteps(s.current, p, force)), RemoveSteps(s.current));
    MergeMainKeepsBranches(s, p, force);
  }

  /** `wst push --merge` on a child branch `b` of a plain parent `p`: checkout p, pull,
      checkout b, rebase onto p, checkout p, merge b, push, then remove b. */
  lemma PushMergeOutcome(s: RepoState, force: bool, indicator: string, p: Branch)
    requires ValidState(s) && |indicator| > 0 && s.heads != map[]
    requires RebaseParent(s.current, indicator) == Some(p) && '/' !in p && '/' !in s.current
    ensures PushSteps(HeadBranch(s), None, true, force, indicator) == MergeSteps(s.current, p, force)
    ensures p != s.current
  {
    ChildContains(s.current, indicator);
    MergePlan(s.current, p, force, indicator);
  }

  /** `wst push` on a branch without a parent, with or without `--merge`: pull, push. */
  lemma PlainPushPlan(s: RepoState, merge: bool, force: bool, indicator: string)
    requires ValidState(s) && |indicator| > 0 && s.heads != map[]
    requires RebaseParent(s.current, indicator).None?
    ensures PushSteps(HeadBranch(s), None, merge, force, indicator) == Fatal([Pull(FastForwardOnly), Push(force, false)])
  {
    assert MainCalls(HeadBranch(s), None, merge, force, indicator) == [Pull(FastForwardOnly), Push(force, false)];
  }

  /** The first push of a branch that has no upstream stops the run at the push, with
      the remote untouched: the TypeError of `'--set-upstream ' + None`. */
  lemma FirstPushHalts(s: RepoState, force: bool, indicator: string)
    requires ValidState(s) && |indicator| > 0 && s.heads != map[] && s.current !in s.remote
    requires RebaseParent(s.current, indicator).None?
    ensures var r := Exec(s, PushSteps(HeadBranch(s), None, false, force, indicator));
      r.halt == Some(Push(force, false)) && r.state.remote == s.remote
  {
    PlainPushPlan(s, false, force, indicator);
    var t := Apply(s, Pull(FastForwardOnly)).value;
    assert t.current == s.current && t.remote == s.remote && t.heads == s.heads;
    assert Apply(t, Push(force, false)).None?;
    assert Fatal([Pull(FastForwardOnly), Push(force, false)]) == [Step(Pull(FastForwardOnly), true), Step(Push(force, false), true)];
  }

  /** Pull then push, run to the end: the branch is unchanged but for the pull, and
      the remote now holds it. */
  lemma PullPushComplete(s: RepoState, force: bool)
    requires ValidState(s) && Exec(s, Fatal([Pull(FastForwardOnly), Push(force, false)])).halt.None?
    ensures var t := Exec(s, Fatal([Pull(FastForwardOnly), Push(force, false)])).state;
      && Calls(t.log) == Calls(s.log) + [Pull(FastForwardOnly), Push(force, false)]
      && t.current == s.current && t.heads.Keys == s.heads.Keys && s.current in t.heads
      && t.remote == s.remote[s.current := t.heads[s.current]]
      && (forall x :: x in s.heads && x != s.current ==> t.heads[x] == s.heads[x])
  {
    var ops := [Pull(FastForwardOnly), Push(force, false)];
    FatalComplete(s, ops);
    ApplyAllCons(s, ops[0], ops[1..]);
    ApplyPull(s, FastForwardOnly);
    var t1 := Apply(s, ops[0]).value;
    ApplyAllCons(t1, ops[1], []);
    ApplyPush(t1, force, false);
  }
}
