// `wst merge` of the current generation (workspace/commands/merge.py): merge one
// branch into the checked-out one, or carry the checked-out branch down the chain of
// branches configured in `merge.branches`, merging and pushing at every hop.
module WsMerge {
  import opened Wrappers
  import opened Text
  import opened Repository
  import opened WsUpdate
  import WsPush

  /** The branches to the right of the first occurrence of the current branch in the
      configured chain; None when there is no current branch or it is not in the chain. */
  function Downstream(chain: seq<Branch>, current: Option<Branch>): (r: Option<seq<Branch>>)
    ensures r.Some? <==> current.Some? && current.value in chain
    ensures r.Some? ==> exists i :: 0 <= i < |chain| && chain[i] == current.value && current.value !in chain[..i]
                                   && r.value == chain[i + 1..]
  {
    if current.Some? && current.value in chain then Some(chain[IndexOf(chain, current.value) + 1..]) else None
  }

  /** One hop, before its push: checkout the next branch, update it, merge the
      previous one into it. */
  function HopCalls(last: Branch, b: Branch, indicator: string): seq<Op>
    requires |indicator| > 0
  {
    [CheckoutCall(b)] + UpdateRepoCalls(Some(CheckoutTarget(b)), indicator) + [Merge(last, false)]
  }

  /** One hop: then `push` with no argument, on the branch now checked out. */
  function HopSteps(last: Branch, b: Branch, indicator: string): seq<Step>
    requires |indicator| > 0
  {
    Fatal(HopCalls(last, b, indicator)) + WsPush.PushSteps(Some(CheckoutTarget(b)), None, false, false, indicator)
  }

  /** The hops from `last` down the branches `bs`. */
  function ChainSteps(last: Branch, bs: seq<Branch>, indicator: string): seq<Step>
    requires |indicator| > 0
    decreases |bs|
  {
    if bs == [] then [] else HopSteps(last, bs[0], indicator) + ChainSteps(bs[0], bs[1..], indicator)
  }

  /** `Merge.run` as steps, given the branch checked out when it starts and the
      configured chain. */
  function MergeSteps(current: Option<Branch>, branch: Option<Branch>, all: bool, chain: string, indicator: string): seq<Step>
    requires |indicator| > 0
  {
    if Given(branch) && all then Fatal([Exit(1)])
    else if Given(branch) then Fatal(UpdateRepoCalls(current, indicator) + [Merge(branch.value, false)])
    else if !all then []
    else if chain == "" then Fatal([Exit(1)])
    else match Downstream(Words(chain), current)
      case None => Fatal([Exit(1)])
      case Some(ds) => ChainSteps(current.value, ds, indicator)
  }

  /** `Merge.run()`; the chain is walked hop by hop, and the walk stops at the first
      hop that fails. */
  method Run(repo: Repo, branch: Option<Branch>, all: bool, chain: string, indicator: string) returns (halt: Option<Op>)
    requires repo.Valid() && |indicator| > 0
    modifies repo
    ensures repo.Valid()
    ensures Exec(old(repo.State()), MergeSteps(HeadBranch(old(repo.State())), branch, all, chain, indicator))
            == Repository.Run(repo.State(), halt)
  {
    ghost var s0 := repo.State();
    var current := repo.CurrentBranch();
    ghost var plan := MergeSteps(HeadBranch(s0), branch, all, chain, indicator);
    if Given(branch) && all {
      assert plan == Fatal([Exit(1)]);
      halt := repo.Execute(Fatal([Exit(1)]));
    } else if Given(branch) {
      assert plan == Fatal(UpdateRepoCalls(current, indicator) + [Merge(branch.value, false)]);
      halt := repo.Execute(Fatal(UpdateRepoCalls(current, indicator) + [Merge(branch.value, false)]));
    } else if !all {
      assert plan == [];
      halt := None;
    } else if chain == "" {
      assert plan == Fatal([Exit(1)]);
      halt := repo.Execute(Fatal([Exit(1)]));
    } else {
      var branches := Words(chain);
      if current.None? || current.value !in branches {
        assert plan == Fatal([Exit(1)]);
        halt := repo.Execute(Fatal([Exit(1)]));
      } else {
        var ds := branches[IndexOf(branches, current.value) + 1..];
        assert plan == ChainSteps(current.value, ds, indicator);
        halt := WalkChain(repo, current.value, ds, indicator);
      }
    }
  }

  /** The `for branch in ...` loop: one hop per downstream branch, stopping at the
      first hop that fails. */
  method WalkChain(repo: Repo, current: Branch, ds: seq<Branch>, indicator: string) returns (halt: Option<Op>)
    requires repo.Valid() && |indicator| > 0
    modifies repo
    ensures repo.Valid()
    ensures Exec(old(repo.State()), ChainSteps(current, ds, indicator)) == Repository.Run(repo.State(), halt)
  {
    ghost var s0 := repo.State();
    var last := current;
    var i := 0;
    halt := None;
    while i < |ds| && halt.None?
      invariant 0 <= i <= |ds| && repo.Valid()
      invariant last == if i == 0 then current else ds[i - 1]
      invariant Exec(s0, ChainSteps(current, ds, indicator))
                == if halt.None? then Exec(repo.State(), ChainSteps(last, ds[i..], indicator)) else Repository.Run(repo.State(), halt)
      decreases |ds| - i
    {
      assert ds[i..][0] == ds[i] && ds[i..][1..] == ds[i + 1..];
      ExecAppend(repo.State(), HopSteps(last, ds[i], indicator), ChainSteps(ds[i], ds[i + 1..], indicator));
      halt := repo.Execute(HopSteps(last, ds[i], indicator));
      last := ds[i];
      i := i + 1;
    }
  }

  // ---- what a merge does ----

  /** `sys.exit(1)` before any call. */
  lemma ExitFirst(s: RepoState)
    requires ValidState(s)
    ensures Exec(s, Fatal([Exit(1)])) == Repository.Run(s, Some(Exit(1)))
  {
    assert Fatal([Exit(1)]) == [Step(Exit(1), true)];
  }

  /** The command refuses to run, before any call, exactly when a branch and `--all`
      are both given, or `--all` is given and the checked-out branch is not in the
      configured chain (an empty chain has no branch in it). */
  lemma RefusedIff(current: Option<Branch>, branch: Option<Branch>, all: bool, chain: string, indicator: string)
    requires |indicator| > 0
    ensures MergeSteps(current, branch, all, chain, indicator) == Fatal([Exit(1)])
            <==> (Given(branch) && all) || (!Given(branch) && all && Downstream(Words(chain), current).None?)
  {
    var plan := MergeSteps(current, branch, all, chain, indicator);
    if Given(branch) && !all {
      var ops := UpdateRepoCalls(current, indicator) + [Merge(branch.value, false)];
      assert Fatal(ops)[|ops| - 1].op == Merge(branch.value, false);
    } else if !Given(branch) && all && chain != "" && Downstream(Words(chain), current).Some? {
      var ds := Downstream(Words(chain), current).value;
      if ds != [] {
        var b := ds[0];
        var hop := HopCalls(current.value, b, indicator);
        assert plan == Fatal(hop) + WsPush.PushSteps(Some(CheckoutTarget(b)), None, false, false, indicator)
                       + ChainSteps(b, ds[1..], indicator);
        assert plan[0].op == CheckoutCall(b);
      }
    } else if !Given(branch) && all && chain == "" {
      assert Words(chain) == [];
    }
  }

  /** The merges of a plan, in order. */
  function MergesOf(plan: seq<Step>): (r: seq<Op>)
    ensures forall op :: op in r ==> op.Merge?
  {
    if plan == [] then [] else (if plan[0].op.Merge? then [plan[0].op] else []) + MergesOf(plan[1..])
  }

  lemma {:induction false} MergesOfAppend(p: seq<Step>, q: seq<Step>)
    ensures MergesOf(p + q) == MergesOf(p) + MergesOf(q)
    decreases |p|
  {
    if p == [] {
      assert p + q == q;
    } else {
      assert (p + q)[0] == p[0] && (p + q)[1..] == p[1..] + q;
      MergesOfAppend(p[1..], q);
    }
  }

  /** A plan without merges. */
  lemma {:induction false} NoMerges(plan: seq<Step>)
    requires forall i :: 0 <= i < |plan| ==> !plan[i].op.Merge?
    ensures MergesOf(plan) == []
    decreases |plan|
  {
    if plan != [] {
      assert forall i :: 0 <= i < |plan[1..]| ==> plan[1..][i] == plan[i + 1];
      NoMerges(plan[1..]);
    }
  }

  lemma UpdateNoMerges(branch: Option<Branch>, indicator: string)
    requires |indicator| > 0
    ensures forall op :: op in UpdateRepoCalls(branch, indicator) ==> !op.Merge?
  {
  }

  /** The push with no argument and no `--merge` merges nothing. */
  lemma PushNoMerges(current: Option<Branch>, indicator: string)
    requires |indicator| > 0
    ensures MergesOf(WsPush.PushSteps(current, None, false, false, indicator)) == []
  {
    WsPush.NoMergeNoCheckout(current, None, false, indicator);
    var ops := UpdateRepoCalls(current, indicator) + [Push(false, false)];
    UpdateNoMerges(current, indicator);
    forall i | 0 <= i < |ops| ensures !Fatal(ops)[i].op.Merge? {
      assert ops[i] in ops;
    }
    NoMerges(Fatal(ops));
  }

  /** A hop merges exactly once: the previous branch. */
  lemma HopMerges(last: Branch, b: Branch, indicator: string)
    requires |indicator| > 0
    ensures MergesOf(HopSteps(last, b, indicator)) == [Merge(last, false)]
  {
    var t := CheckoutTarget(b);
    var front := [CheckoutCall(b)] + UpdateRepoCalls(Some(t), indicator);
    FatalAppend(front, [Merge(last, false)]);
    UpdateNoMerges(Some(t), indicator);
    forall i | 0 <= i < |front| ensures !Fatal(front)[i].op.Merge? {
      assert front[i] in front;
    }
    NoMerges(Fatal(front));
    assert Fatal([Merge(last, false)]) == [Step(Merge(last, false), true)];
    assert MergesOf(Fatal([Merge(last, false)])) == [Merge(last, false)] + MergesOf([]);
    MergesOfAppend(Fatal(front), Fatal([Merge(last, false)]));
    PushNoMerges(Some(t), indicator);
    MergesOfAppend(Fatal(HopCalls(last, b, indicator)), WsPush.PushSteps(Some(t), None, false, false, indicator));
  }

  /** Prepending the first hop's merge shifts the order by one. */
  lemma ShiftOrder(last: Branch, ds: seq<Branch>, rest: seq<Op>)
    requires |ds| > 0 && |rest| == |ds| - 1
    requires forall j :: 0 <= j < |ds| - 1 ==> rest[j] == Merge(if j == 0 then ds[0] else ds[1..][j - 1], false)
    ensures var m := [Merge(last, false)] + rest;
      |m| == |ds| && forall j :: 0 <= j < |ds| ==> m[j] == Merge(if j == 0 then last else ds[j - 1], false)
  {
    var m := [Merge(last, false)] + rest;
    forall j | 1 <= j < |ds| ensures m[j] == Merge(ds[j - 1], false) {
      assert m[j] == rest[j - 1];
      if j > 1 { assert ds[1..][j - 2] == ds[j - 1]; }
    }
  }

  /** Walking the chain merges, in chain order, each branch into the next one, starting
      with the checked-out branch; the branches to its left are never merged. */
  lemma {:induction false} ChainMergeOrder(last: Branch, ds: seq<Branch>, indicator: string)
    requires |indicator| > 0
    ensures var m := MergesOf(ChainSteps(last, ds, indicator));
      && |m| == |ds|
      && forall j :: 0 <= j < |ds| ==> m[j] == Merge(if j == 0 then last else ds[j - 1], false)
    decreases |ds|
  {
    if ds != [] {
      HopMerges(last, ds[0], indicator);
      MergesOfAppend(HopSteps(last, ds[0], indicator), ChainSteps(ds[0], ds[1..], indicator));
      ChainMergeOrder(ds[0], ds[1..], indicator);
      ShiftOrder(last, ds, MergesOf(ChainSteps(ds[0], ds[1..], indicator)));
    }
  }

  // ---- a hop, run ----

  /** The hop's calls, push included, as one list of fatal calls. */
  lemma HopIsFatal(last: Branch, b: Branch, indicator: string)
    requires |indicator| > 0 && '/' !in b
    ensures HopSteps(last, b, indicator)
            == Fatal([Checkout(b, None)] + UpdateRepoCalls(Some(b), indicator) + [Merge(last, false)]
                     + (UpdateRepoCalls(Some(b), indicator) + [Push(false, false)]))
  {
    WsPush.NoMergeNoCheckout(Some(b), None, false, indicator);
    FatalAppend([Checkout(b, None)] + UpdateRepoCalls(Some(b), indicator) + [Merge(last, false)],
                UpdateRepoCalls(Some(b), indicator) + [Push(false, false)]);
  }

  lemma {:induction false} FatalAppend(a: seq<Op>, b: seq<Op>)
    ensures Fatal(a + b) == Fatal(a) + Fatal(b)
  {
    assert |Fatal(a + b)| == |Fatal(a) + Fatal(b)|;
    forall i | 0 <= i < |a + b| ensures Fatal(a + b)[i] == (Fatal(a) + Fatal(b))[i] {
      if i < |a| { assert (a + b)[i] == a[i]; } else { assert (a + b)[i] == b[i - |a|]; }
    }
  }

  /** The first half of a hop, completed: the branch is checked out and holds every
      commit the previous branch had; no commit was lost anywhere. */
  lemma HopMergeComplete(s: RepoState, last: Branch, b: Branch, indicator: string)
    requires ValidState(s) && |indicator| > 0 && '/' !in b
    requires ApplyAll(s, [Checkout(b, None)] + UpdateRepoCalls(Some(b), indicator) + [Merge(last, false)]).Some?
    ensures var t := ApplyAll(s, [Checkout(b, None)] + UpdateRepoCalls(Some(b), indicator) + [Merge(last, false)]).value;
      && t.current == b && b in t.heads && Grows(s, t)
      && (last in s.heads ==> forall h :: h in s.heads[last] ==> h in t.heads[b])
  {
    var u := UpdateRepoCalls(Some(b), indicator);
    ApplyAllAppend(s, [Checkout(b, None)] + u, [Merge(last, false)]);
    ApplyAllAppend(s, [Checkout(b, None)], u);
    ApplyAllCons(s, Checkout(b, None), []);
    ApplyCheckout(s, b);
    var s1 := Apply(s, Checkout(b, None)).value;
    UpdateEndsOn(s1, indicator);
    var s2 := ApplyAll(s1, u).value;
    ApplyAllCons(s2, Merge(last, false), []);
    ApplyMerge(s2, last, false);
    UpdateKeepsCommits(b, indicator);
    assert forall op :: op in [Checkout(b, None)] + u ==> KeepsCommits(op);
    ApplyAllGrows(s, [Checkout(b, None)] + u);
    ApplyAllGrows(s2, [Merge(last, false)]);
    GrowsTrans(s, s2, ApplyAll(s2, [Merge(last, false)]).value);
  }

  /** The push half of a hop, completed: still on the branch, which is now on the
      remote as it is locally; no commit was lost. */
  lemma HopPushComplete(t: RepoState, indicator: string)
    requires ValidState(t) && |indicator| > 0 && t.heads != map[] && '/' !in t.current
    requires ApplyAll(t, UpdateRepoCalls(Some(t.current), indicator) + [Push(false, false)]).Some?
    ensures var v := ApplyAll(t, UpdateRepoCalls(Some(t.current), indicator) + [Push(false, false)]).value;
      && v.current == t.current && t.current in v.heads && Grows(t, v)
      && t.current in v.remote && v.remote[t.current] == v.heads[t.current]
  {
    var u := UpdateRepoCalls(Some(t.current), indicator);
    ApplyAllAppend(t, u, [Push(false, false)]);
    UpdateEndsOn(t, indicator);
    var t1 := ApplyAll(t, u).value;
    ApplyAllCons(t1, Push(false, false), []);
    ApplyPush(t1, false, false);
    UpdateKeepsCommits(t.current, indicator);
    assert forall op :: op in u + [Push(false, false)] ==> KeepsCommits(op);
    ApplyAllGrows(t, u + [Push(false, false)]);
  }

  /** A hop from `last` to `b` run to the end: `b` is checked out, holds every commit
      `last` had, and is pushed; no branch lost a commit. */
  lemma HopComplete(s: RepoState, last: Branch, b: Branch, indicator: string)
    requires ValidState(s) && |indicator| > 0 && '/' !in b
    requires Exec(s, HopSteps(last, b, indicator)).halt.None?
    ensures var t := Exec(s, HopSteps(last, b, indicator)).state;
      && t.current == b && b in t.heads && Grows(s, t)
      && (last in s.heads ==> forall h :: h in s.heads[last] ==> h in t.heads[b])
      && b in t.remote && t.remote[b] == t.heads[b]
  {
    var a := [Checkout(b, None)] + UpdateRepoCalls(Some(b), indicator) + [Merge(last, false)];
    var c := UpdateRepoCalls(Some(b), indicator) + [Push(false, false)];
    HopIsFatal(last, b, indicator);
    FatalComplete(s, a + c);
    ApplyAllAppend(s, a, c);
    HopMergeComplete(s, last, b, indicator);
    var t := ApplyAll(s, a).value;
    HopPushComplete(t, indicator);
    GrowsTrans(s, t, ApplyAll(t, c).value);
  }

  /** A hop that stops part way loses no commit either. */
  lemma HopGrows(s: RepoState, last: Branch, b: Branch, indicator: string)
    requires ValidState(s) && |indicator| > 0 && '/' !in b
    ensures Grows(s, Exec(s, HopSteps(last, b, indicator)).state)
  {
    var u := UpdateRepoCalls(Some(b), indicator);
    HopIsFatal(last, b, indicator);
    UpdateKeepsCommits(b, indicator);
    assert forall op :: op in [Checkout(b, None)] + u + [Merge(last, false)] + (u + [Push(false, false)]) ==> KeepsCommits(op);
    FatalGrows(s, [Checkout(b, None)] + u + [Merge(last, false)] + (u + [Push(false, false)]));
  }

  // ---- the chain, run ----

  /** The hops from `last` down `bs[k..]`, run to the end: every branch walked holds
      every commit `last` had, and no branch lost a commit. */
  lemma {:induction false} ChainComplete(s: RepoState, last: Branch, bs: seq<Branch>, k: nat, indicator: string)
    requires ValidState(s) && |indicator| > 0 && last in s.heads && k <= |bs|
    requires forall b :: b in bs ==> '/' !in b
    requires Exec(s, ChainSteps(last, bs[k..], indicator)).halt.None?
    ensures var t := Exec(s, ChainSteps(last, bs[k..], indicator)).state;
      && Grows(s, t)
      && forall j :: k <= j < |bs| ==> bs[j] in t.heads && forall h :: h in s.heads[last] ==> h in t.heads[bs[j]]
    decreases |bs| - k
  {
    if k < |bs| {
      var b := bs[k];
      ChainUnfold(last, bs, k, indicator);
      ExecAppend(s, HopSteps(last, b, indicator), ChainSteps(b, bs[k + 1..], indicator));
      HopComplete(s, last, b, indicator);
      var t1 := Exec(s, HopSteps(last, b, indicator)).state;
      ChainComplete(t1, b, bs, k + 1, indicator);
      ChainLink(s, t1, Exec(t1, ChainSteps(b, bs[k + 1..], indicator)).state, last, bs, k);
    }
  }

  /** The first hop of the branches from `k` on, then the rest. */
  lemma ChainUnfold(last: Branch, bs: seq<Branch>, k: nat, indicator: string)
    requires |indicator| > 0 && k < |bs|
    ensures ChainSteps(last, bs[k..], indicator) == HopSteps(last, bs[k], indicator) + ChainSteps(bs[k], bs[k + 1..], indicator)
  {
    assert bs[k..][0] == bs[k] && bs[k..][1..] == bs[k + 1..];
  }

  /** The first hop's guarantees followed by the rest of the walk's give the walk's. */
  lemma ChainLink(s: RepoState, t1: RepoState, t: RepoState, last: Branch, bs: seq<Branch>, k: nat)
    requires k < |bs| && last in s.heads
    requires Grows(s, t1) && bs[k] in t1.heads && forall h :: h in s.heads[last] ==> h in t1.heads[bs[k]]
    requires Grows(t1, t)
    requires forall j :: k + 1 <= j < |bs| ==> bs[j] in t.heads && forall h :: h in t1.heads[bs[k]] ==> h in t.heads[bs[j]]
    ensures Grows(s, t)
    ensures forall j :: k <= j < |bs| ==> bs[j] in t.heads && forall h :: h in s.heads[last] ==> h in t.heads[bs[j]]
  {
    GrowsTrans(s, t1, t);
  }

  /** A walk down the chain that stops part way loses no commit on any branch. */
  lemma {:induction false} ChainGrows(s: RepoState, last: Branch, ds: seq<Branch>, indicator: string)
    requires ValidState(s) && |indicator| > 0
    requires forall b :: b in ds ==> '/' !in b
    ensures Grows(s, Exec(s, ChainSteps(last, ds, indicator)).state)
    decreases |ds|
  {
    if ds != [] {
      var b := ds[0];
      ExecAppend(s, HopSteps(last, b, indicator), ChainSteps(b, ds[1..], indicator));
      HopGrows(s, last, b, indicator);
      var t1 := Exec(s, HopSteps(last, b, indicator)).state;
      if Exec(s, HopSteps(last, b, indicator)).halt.None? {
        assert forall x :: x in ds[1..] ==> x in ds;
        ChainGrows(t1, b, ds[1..], indicator);
        GrowsTrans(s, t1, Exec(t1, ChainSteps(b, ds[1..], indicator)).state);
      }
    }
  }

  /** `wst merge <branch>` run to the end, on a branch without `/`: the checked-out
      branch is still checked out and holds every commit of the merged branch. */
  lemma SingleMergeComplete(s: RepoState, branch: Branch, indicator: string)
    requires ValidState(s) && |indicator| > 0 && s.heads != map[] && '/' !in s.current && branch != ""
    requires Exec(s, MergeSteps(HeadBranch(s), Some(branch), false, "", indicator)).halt.None?
    ensures var t := Exec(s, MergeSteps(HeadBranch(s), Some(branch), false, "", indicator)).state;
      && t.current == s.current && Grows(s, t)
      && branch in s.heads && forall h :: h in s.heads[branch] ==> h in t.heads[s.current]
  {
    var u := UpdateRepoCalls(Some(s.current), indicator);
    FatalComplete(s, u + [Merge(branch, false)]);
    ApplyAllAppend(s, u, [Merge(branch, false)]);
    UpdateEndsOn(s, indicator);
    var t1 := ApplyAll(s, u).value;
    ApplyAllCons(t1, Merge(branch, false), []);
    ApplyMerge(t1, branch, false);
    UpdateKeepsCommits(s.current, indicator);
    assert forall op :: op in u + [Merge(branch, false)] ==> KeepsCommits(op);
    ApplyAllGrows(s, u + [Merge(branch, false)]);
    assert forall i :: 0 <= i < |u| ==> KeepsBranches(u[i]) by {
      forall i | 0 <= i < |u| ensures KeepsBranches(u[i]) { assert u[i] in u; }
    }
    ApplyAllKeepsBranches(s, u);
  }

  /** `--all` from a branch of the chain walks the branches to its right. */
  lemma MergeAllPlan(current: Branch, chain: string, indicator: string)
    requires |indicator| > 0 && current in Words(chain)
    ensures MergeSteps(Some(current), None, true, chain, indicator)
            == ChainSteps(current, Words(chain)[IndexOf(Words(chain), current) + 1..], indicator)
  {
    EmptyChain(chain);
  }

  /** The same, for the branch checked out in a repository. */
  lemma MergeAllFromHead(s: RepoState, chain: string, indicator: string)
    requires |indicator| > 0 && s.heads != map[] && s.current in Words(chain)
    ensures MergeSteps(HeadBranch(s), None, true, chain, indicator)
            == ChainSteps(s.current, Words(chain)[IndexOf(Words(chain), s.current) + 1..], indicator)
  {
    assert HeadBranch(s) == Some(s.current);
    MergeAllPlan(s.current, chain, indicator);
  }

  /** A chain with a branch in it is not the empty string. */
  lemma EmptyChain(chain: string)
    ensures chain == "" ==> Words(chain) == []
  {
  }

  /** `wst merge --all` run to the end from a branch of the chain: every branch to its
      right in `merge.branches` now holds every commit it had, and no branch lost a
      commit. */
  lemma MergeAllComplete(s: RepoState, chain: string, indicator: string)
    requires ValidState(s) && |indicator| > 0 && s.heads != map[]
    requires forall b :: b in Words(chain) ==> '/' !in b
    requires s.current in Words(chain)
    requires Exec(s, MergeSteps(HeadBranch(s), None, true, chain, indicator)).halt.None?
    ensures var t := Exec(s, MergeSteps(HeadBranch(s), None, true, chain, indicator)).state;
      var bs := Words(chain);
      && Grows(s, t)
      && forall j :: IndexOf(bs, s.current) < j < |bs| ==>
           bs[j] in t.heads && forall h :: h in s.heads[s.current] ==> h in t.heads[bs[j]]
  {
    var bs := Words(chain);
    var k := IndexOf(bs, s.current) + 1;
    MergeAllFromHead(s, chain, indicator);
    ChainComplete(s, s.current, bs, k, indicator);
  }
}
