// `wst update` of the current generation (workspace/commands/update.py): which repos
// are selected, and `_update_repo`, which updates a child branch's parent first and
// then rebases the child onto it.
module WsUpdate {
  import opened Wrappers
  import opened Text
  import opened Repository
  import WsScm
  import ProductGroups

  /** How `_update_repo` ends: success, an error it logged before returning False, or
      an error it re-raised. */
  datatype Outcome = Updated | Failed(call: Op) | Raised(call: Op)

  function OutcomeOf(halt: Option<Op>, raises: bool): (r: Outcome)
    ensures r.Updated? <==> halt.None?
    ensures r.Raised? <==> halt.Some? && raises
    ensures !r.Updated? ==> r.call == halt.value
  {
    match halt
    case None => Updated
    case Some(op) => if raises then Raised(op) else Failed(op)
  }

  /** A branch argument that argparse filled in (None and "" are both falsy). */
  predicate Given(branch: Option<Branch>)
  {
    branch.Some? && branch.value != ""
  }

  /** `checkout_branch(branch)` as a call: a `remote/name` branch is checked out as
      `name` (`-B`). */
  function CheckoutCall(branch: Branch): (r: Op)
    ensures r.Checkout? && r.branch == branch
    ensures '/' !in branch ==> r.resetAs.None?
  {
    Checkout(branch, WsScm.CheckoutResetName(branch))
  }

  /** The branch that is checked out after `checkout_branch(branch)` succeeds. */
  function CheckoutTarget(branch: Branch): (r: Branch)
    ensures '/' !in branch ==> r == branch
  {
    match WsScm.CheckoutResetName(branch)
    case Some(n) => n
    case None => branch
  }

  /** The parent `_update_repo` works with: `if parent:` skips an empty one. */
  function RebaseParent(branch: Branch, indicator: string): (r: Option<Branch>)
    requires |indicator| > 0
    ensures r.Some? <==> WsScm.ParentBranch(branch, indicator).Some? && WsScm.ParentBranch(branch, indicator).value != ""
    ensures r.Some? ==> r == WsScm.ParentBranch(branch, indicator) && !Contains(r.value, indicator)
  {
    match WsScm.ParentBranch(branch, indicator)
    case Some(p) => if p != "" then Some(p) else None
    case None => None
  }

  /** The calls of `_update_repo` for the checked-out branch (None in a repository with
      no branch, where `parent_branch(None)` raises TypeError). */
  function UpdateRepoCalls(branch: Option<Branch>, indicator: string): (r: seq<Op>)
    requires |indicator| > 0
    ensures branch.Some? && RebaseParent(branch.value, indicator).None? ==> r == [Pull(FastForwardOnly)]
  {
    match branch
    case None => [Raise("TypeError")]
    case Some(b) =>
      match RebaseParent(b, indicator)
      case Some(p) => [CheckoutCall(p), Pull(FastForwardOnly), CheckoutCall(b), Rebase(p)]
      case None => [Pull(FastForwardOnly)]
  }

  /** `_update_repo(repo, raises)`. */
  method UpdateRepo(repo: Repo, indicator: string, raises: bool) returns (r: Outcome)
    requires repo.Valid() && |indicator| > 0
    modifies repo
    ensures repo.Valid()
    ensures var run := Exec(old(repo.State()), Fatal(UpdateRepoCalls(HeadBranch(old(repo.State())), indicator)));
            repo.State() == run.state && r == OutcomeOf(run.halt, raises)
  {
    var branch := repo.CurrentBranch();
    var halt := repo.Execute(Fatal(UpdateRepoCalls(branch, indicator)));
    r := OutcomeOf(halt, raises);
  }

  // ---- what an update does ----

  /** In a repository with no branch the update raises before any call is made. */
  lemma UpdateEmptyRepo(s: RepoState, indicator: string)
    requires ValidState(s) && |indicator| > 0 && s.heads == map[]
    ensures Exec(s, Fatal(UpdateRepoCalls(HeadBranch(s), indicator))) == Repository.Run(s, Some(Raise("TypeError")))
  {
    EmptyRepoPlan(s, indicator);
    RaiseFails(s, "TypeError");
    ExecFirstFails(s, Raise("TypeError"), []);
  }

  /** In a repository with no branch the plan is the one raise. */
  lemma EmptyRepoPlan(s: RepoState, indicator: string)
    requires |indicator| > 0 && s.heads == map[]
    ensures Fatal(UpdateRepoCalls(HeadBranch(s), indicator)) == [Step(Raise("TypeError"), true)] + []
  {
    assert HeadBranch(s) == None;
    assert Fatal([Raise("TypeError")]) == [Step(Raise("TypeError"), true)];
  }

  /** A branch without a parent is only pulled: nothing is checked out, and no other
      branch changes. */
  lemma {:induction false} UpdateWithoutParent(s: RepoState, indicator: string)
    requires ValidState(s) && |indicator| > 0 && s.heads != map[]
    requires RebaseParent(s.current, indicator).None?
    ensures var t := Exec(s, Fatal(UpdateRepoCalls(HeadBranch(s), indicator))).state;
      && t.current == s.current && t.remote == s.remote && t.heads.Keys == s.heads.Keys
      && (forall x :: x in s.heads && x != s.current ==> t.heads[x] == s.heads[x])
      && (Calls(t.log) == Calls(s.log) || Calls(t.log) == Calls(s.log) + [Pull(FastForwardOnly)])
  {
    var ops := [Pull(FastForwardOnly)];
    assert Fatal(ops) == [Step(Pull(FastForwardOnly), true)];
    assert Fatal(ops)[1..] == [];
    var k := FatalRunOrder(s, ops);
    assert ops[..0] == [] && ops[..1] == ops;
  }

  /** A child branch with a plain parent: after a successful update the parent has been
      pulled, the child is checked out again and holds the parent's commits followed
      by its own, the calls ran in the order checkout parent, pull, checkout child,
      rebase; no other branch and no remote branch changed. */
  lemma {:induction false} UpdateWithParent(s: RepoState, indicator: string, p: Branch)
    requires ValidState(s) && |indicator| > 0 && s.heads != map[]
    requires RebaseParent(s.current, indicator) == Some(p) && '/' !in p && '/' !in s.current
    ensures var run := Exec(s, Fatal(UpdateRepoCalls(HeadBranch(s), indicator)));
      run.halt.None? ==>
        && Calls(run.state.log) == Calls(s.log) + [Checkout(p, None), Pull(FastForwardOnly), Checkout(s.current, None), Rebase(p)]
        && run.state.current == s.current && p in run.state.heads && s.current in run.state.heads
        && run.state.heads[s.current] == run.state.heads[p] + Unique(s.heads[s.current], run.state.heads[p])
        && run.state.remote == s.remote && run.state.heads.Keys == s.heads.Keys
        && (forall x :: x in s.heads && x != p && x != s.current ==> run.state.heads[x] == s.heads[x])
  {
    var b := s.current;
    var ops := [Checkout(p, None), Pull(FastForwardOnly), Checkout(b, None), Rebase(p)];
    assert UpdateRepoCalls(HeadBranch(s), indicator) == ops;
    var k := FatalRunOrder(s, ops);
    var run := Exec(s, Fatal(ops));
    if run.halt.None? {
      assert ops[..k] == ops;
      assert p != b by { ChildContains(b, indicator); }
      ParentRebase(s, p, b, FastForwardOnly);
    }
  }

  /** The parent is a suffix of the branch, so a branch without `/` has a parent
      without `/`. */
  lemma ParentNoSlash(b: Branch, indicator: string)
    requires |indicator| > 0 && '/' !in b && RebaseParent(b, indicator).Some?
    ensures '/' !in RebaseParent(b, indicator).value
  {
    var p := RebaseParent(b, indicator).value;
    var i :| OccursAt(b, indicator, i) && p == b[i + |indicator|..];
    forall k | 0 <= k < |p| ensures p[k] != '/' {
      assert p[k] == b[i + |indicator| + k];
    }
  }

  /** For a branch without `/`, the update's calls lose no commit. */
  lemma UpdateKeepsCommits(b: Branch, indicator: string)
    requires |indicator| > 0 && '/' !in b
    ensures forall op :: op in UpdateRepoCalls(Some(b), indicator) ==> KeepsCommits(op)
  {
    if RebaseParent(b, indicator).Some? {
      ParentNoSlash(b, indicator);
    }
  }

  /** A completed update leaves the branch it started on checked out. */
  lemma UpdateEndsOn(s: RepoState, indicator: string)
    requires ValidState(s) && |indicator| > 0 && s.heads != map[] && '/' !in s.current
    requires ApplyAll(s, UpdateRepoCalls(Some(s.current), indicator)).Some?
    ensures var t := ApplyAll(s, UpdateRepoCalls(Some(s.current), indicator)).value;
      t.current == s.current && s.current in t.heads
  {
    var b := s.current;
    match RebaseParent(b, indicator)
    case None =>
      ApplyAllCons(s, Pull(FastForwardOnly), []);
      ApplyPull(s, FastForwardOnly);
    case Some(p) =>
      ParentNoSlash(b, indicator);
      assert p != b by { ChildContains(b, indicator); }
      ParentRebase(s, p, b, FastForwardOnly);
  }

  /** A branch that has a parent contains the indicator. */
  lemma ChildContains(b: Branch, indicator: string)
    requires |indicator| > 0 && RebaseParent(b, indicator).Some?
    ensures Contains(b, indicator)
  {
  }

  // ---- Update.run ----

  /** The filter of `Update.run`: no products, or their group expansion (None when the
      expansion runs out of recursion). */
  function Filter(products: seq<string>, groups: seq<ProductGroups.Group>, fuel: nat): Option<set<string>>
  {
    if products == [] then Some({}) else ProductGroups.Expand(products, groups, fuel)
  }

  /** The filter computation of `Update.run`: the expansion of the products, when
      some are given. */
  method ComputeFilter(products: seq<string>, groups: seq<ProductGroups.Group>, fuel: nat) returns (f: Option<set<string>>)
    ensures f == Filter(products, groups, fuel)
  {
    f := Some({});
    if products != [] {
      var expanded := ProductGroups.ExpandProductGroups(products, groups, fuel);
      if expanded.None? {
        return None;
      }
      ProductGroups.SetOfSeq(expanded.value, ProductGroups.Expand(products, groups, fuel).value);
      f := Some(set x | x in expanded.value);
    }
  }

  /** `select_repos`: all repos for an empty filter, else those whose product name is in
      it, in their listed order. */
  function SelectRepos(repos: seq<string>, filter: set<string>): (r: seq<string>)
    ensures |r| <= |repos|
    ensures forall x :: x in r <==> x in repos && (filter == {} || WsScm.ProductName(x) in filter)
  {
    if repos == [] then []
    else (if filter == {} || WsScm.ProductName(repos[0]) in filter then [repos[0]] else [])
         + SelectRepos(repos[1..], filter)
  }

  lemma {:induction false} SelectAll(repos: seq<string>)
    ensures SelectRepos(repos, {}) == repos
  {
    if repos != [] {
      SelectAll(repos[1..]);
      assert repos == [repos[0]] + repos[1..];
    }
  }

  /** The result of `Update.run`: no product selected, the one selected repo updated,
      several repos updated in parallel (not modelled), or the expansion's error. */
  datatype RunResult = NoProduct | Single(outcome: Outcome) | Parallel(repos: seq<string>) | ExpansionFailed

  /** `Update.run` in the repository `repo`, which is the selected repo when exactly one
      is selected. */
  method Run(products: seq<string>, groups: seq<ProductGroups.Group>, fuel: nat, repos: seq<string>,
             repo: Repo, indicator: string, raises: bool) returns (r: RunResult)
    requires repo.Valid() && |indicator| > 0
    modifies repo
    ensures repo.Valid()
    ensures r.ExpansionFailed? <==> Filter(products, groups, fuel).None?
    ensures r.NoProduct? <==> Filter(products, groups, fuel).Some? && SelectRepos(repos, Filter(products, groups, fuel).value) == []
    ensures r.Parallel? ==> Filter(products, groups, fuel).Some? && r.repos == SelectRepos(repos, Filter(products, groups, fuel).value) && |r.repos| > 1
    ensures r.Single? ==> Filter(products, groups, fuel).Some? && |SelectRepos(repos, Filter(products, groups, fuel).value)| == 1
    ensures r.Single? ==>
      var run := Exec(old(repo.State()), Fatal(UpdateRepoCalls(HeadBranch(old(repo.State())), indicator)));
      repo.State() == run.state && r.outcome == OutcomeOf(run.halt, raises)
    ensures !r.Single? ==> repo.State() == old(repo.State())
  {
    var filter := ComputeFilter(products, groups, fuel);
    if filter.None? {
      return ExpansionFailed;
    }
    var selected := SelectRepos(repos, filter.value);
    if selected == [] {
      r := NoProduct;
    } else if |selected| == 1 {
      var outcome := UpdateRepo(repo, indicator, raises);
      r := Single(outcome);
    } else {
      r := Parallel(selected);
    }
  }
}
