// `wst update` of the older generation (src/workspace/commands/update.py): a loop over
// every checkout of the workspace. A git checkout on another branch is updated through
// master: checkout master, update, checkout the branch again and rebase it onto master.
module LegacyUpdate {
  import opened Wrappers
  import opened Repository
  import LegacyScm
  import WsUpdate
  import ProductGroups

  /** A checkout of the workspace: its directory, its kind, and the state of its
      repository. */
  datatype Product = Product(path: string, isGit: bool, isGitSvn: bool, state: RepoState)

  /** How the loop dealt with one checkout. */
  datatype Outcome = Skipped | Updated | Logged(call: Op) | Raised(call: Op)

  function OutcomeOf(halt: Option<Op>, raises: bool): (r: Outcome)
    ensures r.Updated? <==> halt.None?
    ensures r.Raised? <==> halt.Some? && raises
    ensures r.Logged? <==> halt.Some? && !raises
    ensures r.Logged? || r.Raised? ==> r.call == halt.value
  {
    match halt
    case None => Updated
    case Some(op) => if raises then Raised(op) else Logged(op)
  }

  /** The checkout is updated: no filter, or its product name is in it. */
  predicate Selected(path: string, filter: set<string>)
  {
    filter == {} || LegacyScm.ProductName(path) in filter
  }

  /** The calls made in one checkout; `head` is `current_branch(repo)` (None where
      `all_branches(repo)[0]` raises IndexError). */
  function UpdateCalls(isGit: bool, isGitSvn: bool, head: Option<Branch>): seq<Op>
  {
    var update := Pull(LegacyScm.UpdateMode(isGitSvn, isGit));
    if !isGit then [update]
    else
      match head
      case None => [Raise("IndexError")]
      case Some(b) =>
        (if b != LegacyScm.Master then [Checkout(LegacyScm.Master, None)] else [])
        + [update]
        + (if b != "" && b != LegacyScm.Master then [Checkout(b, None), Rebase(LegacyScm.Master)] else [])
  }

  /** One iteration of the loop: the checkout's state after it, and the outcome. */
  function UpdateOne(p: Product, filter: set<string>, raises: bool): (RepoState, Outcome)
    requires ValidState(p.state)
  {
    if !Selected(p.path, filter) then (p.state, Skipped)
    else
      var run := Exec(p.state, Fatal(UpdateCalls(p.isGit, p.isGitSvn, HeadBranch(p.state))));
      (run.state, OutcomeOf(run.halt, raises))
  }

  /** What the loop leaves behind: the state of every checkout, and one outcome per
      checkout visited. */
  datatype Visits = Visits(after: seq<RepoState>, outcomes: seq<Outcome>)

  /** `update(products, raises)`: None when the group expansion runs out of recursion.
      With `raises` the loop stops after the first checkout whose update fails;
      without it every checkout is visited. */
  method Update(products: seq<string>, groups: seq<ProductGroups.Group>, fuel: nat, ws: seq<Product>, raises: bool)
    returns (r: Option<Visits>)
    requires forall i :: 0 <= i < |ws| ==> ValidState(ws[i].state)
    ensures r.None? <==> WsUpdate.Filter(products, groups, fuel).None?
    ensures r.Some? ==>
      var filter := WsUpdate.Filter(products, groups, fuel).value;
      var after, out := r.value.after, r.value.outcomes;
      && |after| == |ws| && |out| <= |ws|
      && (forall i {:trigger UpdateOne(ws[i], filter, raises)} :: 0 <= i < |out| ==> UpdateOne(ws[i], filter, raises) == (after[i], out[i]))
      && (forall i :: |out| <= i < |ws| ==> after[i] == ws[i].state)
      && (forall i :: 0 <= i < |out| - 1 ==> !out[i].Raised?)
      && (|out| < |ws| ==> out != [] && out[|out| - 1].Raised?)
      && (!raises ==> |out| == |ws|)
  {
    var filter := WsUpdate.ComputeFilter(products, groups, fuel);
    if filter.None? {
      return None;
    }
    var v := VisitAll(ws, filter.value, raises);
    r := Some(v);
  }

  /** The loop of `update` over the checkouts, for a given filter. */
  method VisitAll(ws: seq<Product>, filter: set<string>, raises: bool) returns (v: Visits)
    requires forall i :: 0 <= i < |ws| ==> ValidState(ws[i].state)
    ensures var after, out := v.after, v.outcomes;
      && |after| == |ws| && |out| <= |ws|
      && (forall i {:trigger UpdateOne(ws[i], filter, raises)} :: 0 <= i < |out| ==> UpdateOne(ws[i], filter, raises) == (after[i], out[i]))
      && (forall i :: |out| <= i < |ws| ==> after[i] == ws[i].state)
      && (forall i :: 0 <= i < |out| - 1 ==> !out[i].Raised?)
      && (|out| < |ws| ==> out != [] && out[|out| - 1].Raised?)
      && (!raises ==> |out| == |ws|)
  {
    ghost var expected := seq(|ws|, i requires 0 <= i < |ws| => UpdateOne(ws[i], filter, raises));
    var after := seq(|ws|, i requires 0 <= i < |ws| => ws[i].state);
    ghost var initial := after;
    var out: seq<Outcome> := [];
    while |out| < |ws| && (out == [] || !out[|out| - 1].Raised?)
      invariant |initial| == |ws| && forall i :: 0 <= i < |ws| ==> initial[i] == ws[i].state
      invariant Progress(expected, initial, raises, after, out)
      decreases |ws| - |out|
    {
      var k := |out|;
      var state, outcome := Visit(ws[k], filter, raises);
      ProgressStep(expected, initial, raises, after, out, state, outcome);
      after := after[k := state];
      out := out + [outcome];
    }
    ProgressDone(expected, initial, raises, after, out);
    v := Visits(after, out);
  }

  /** What the loop of `update` has done once `out` holds the outcomes so far: each
      visited checkout got its `expected` state and outcome, the others kept their
      `initial` state, and only the last visit may have raised. */
  ghost predicate Progress(expected: seq<(RepoState, Outcome)>, initial: seq<RepoState>, raises: bool,
                           after: seq<RepoState>, out: seq<Outcome>)
  {
    && |out| <= |expected| == |initial| == |after|
    && (forall i :: 0 <= i < |out| ==> expected[i] == (after[i], out[i]))
    && (forall i :: |out| <= i < |after| ==> after[i] == initial[i])
    && (forall i :: 0 <= i < |out| - 1 ==> !out[i].Raised?)
    && (!raises ==> forall i :: 0 <= i < |out| ==> !out[i].Raised?)
  }

  /** A visit that the loop guard allows extends the progress by one checkout. */
  lemma ProgressStep(expected: seq<(RepoState, Outcome)>, initial: seq<RepoState>, raises: bool,
                     after: seq<RepoState>, out: seq<Outcome>, state: RepoState, outcome: Outcome)
    requires Progress(expected, initial, raises, after, out)
    requires |out| < |expected| && (out == [] || !out[|out| - 1].Raised?)
    requires expected[|out|] == (state, outcome)
    requires !raises ==> !outcome.Raised?
    ensures Progress(expected, initial, raises, after[|out| := state], out + [outcome])
  {
    var k := |out|;
    var after', out' := after[k := state], out + [outcome];
    forall i | 0 <= i < |out'| ensures expected[i] == (after'[i], out'[i]) {
      if i < k {
        assert after'[i] == after[i] && out'[i] == out[i];
      }
    }
    forall i | 0 <= i < |out'| - 1 ensures !out'[i].Raised? {
      assert out'[i] == out[i];
    }
  }

  /** When the loop stops, either every checkout was visited or the last visit raised;
      without `raises` none does, so every checkout was visited. */
  lemma ProgressDone(expected: seq<(RepoState, Outcome)>, initial: seq<RepoState>, raises: bool,
                     after: seq<RepoState>, out: seq<Outcome>)
    requires Progress(expected, initial, raises, after, out)
    requires !(|out| < |expected| && (out == [] || !out[|out| - 1].Raised?))
    ensures |out| < |expected| ==> out != [] && out[|out| - 1].Raised?
    ensures !raises ==> |out| == |expected|
  {
  }

  /** One pass of that loop: a checkout outside the filter is skipped, any other one
      runs its update calls. */
  method Visit(p: Product, filter: set<string>, raises: bool) returns (state: RepoState, outcome: Outcome)
    requires ValidState(p.state)
    ensures (state, outcome) == UpdateOne(p, filter, raises)
    ensures !raises ==> !outcome.Raised?
  {
    if !Selected(p.path, filter) {
      state, outcome := p.state, Skipped;
    } else {
      var run := Exec(p.state, Fatal(UpdateCalls(p.isGit, p.isGitSvn, HeadBranch(p.state))));
      state, outcome := run.state, OutcomeOf(run.halt, raises);
    }
  }

  // ---- what one checkout's update does ----

  /** A checkout on master, and any checkout that is not git, is only updated. */
  lemma OnlyUpdated(isGit: bool, isGitSvn: bool, head: Option<Branch>)
    requires !isGit || head == Some(LegacyScm.Master)
    ensures UpdateCalls(isGit, isGitSvn, head) == [Pull(LegacyScm.UpdateMode(isGitSvn, isGit))]
  {
  }

  /** A git checkout on a branch other than master: once its update ends without a
      failure, the calls were checkout master, update, checkout the branch, rebase
      onto master; the branch is checked out again and holds the updated master's
      commits followed by its own; only master and the branch changed. */
  lemma ThroughMaster(s: RepoState, isGitSvn: bool)
    requires ValidState(s) && s.heads != map[] && s.current != LegacyScm.Master && s.current != ""
    ensures var run := Exec(s, Fatal(UpdateCalls(true, isGitSvn, HeadBranch(s))));
      run.halt.None? ==>
        && Calls(run.state.log) == Calls(s.log) + [Checkout(LegacyScm.Master, None), Pull(PullRebase), Checkout(s.current, None), Rebase(LegacyScm.Master)]
        && run.state.current == s.current && LegacyScm.Master in run.state.heads && s.current in run.state.heads
        && run.state.heads[s.current] == run.state.heads[LegacyScm.Master] + Unique(s.heads[s.current], run.state.heads[LegacyScm.Master])
        && run.state.remote == s.remote && run.state.heads.Keys == s.heads.Keys
        && (forall x :: x in s.heads && x != LegacyScm.Master && x != s.current ==> run.state.heads[x] == s.heads[x])
  {
    var b := s.current;
    var ops := [Checkout(LegacyScm.Master, None), Pull(PullRebase), Checkout(b, None), Rebase(LegacyScm.Master)];
    assert UpdateCalls(true, isGitSvn, HeadBranch(s)) == ops;
    FatalIsApplyAll(s, ops);
    if ApplyAll(s, ops).Some? {
      FatalComplete(s, ops);
      ParentRebase(s, LegacyScm.Master, b, PullRebase);
    }
  }

  /** A git checkout without branches raises before any call: the error is logged, or
      re-raised with `raises`, and the checkout is untouched. */
  lemma EmptyCheckout(p: Product, filter: set<string>, raises: bool)
    requires ValidState(p.state) && p.state.heads == map[] && p.isGit && Selected(p.path, filter)
    ensures UpdateOne(p, filter, raises) == (p.state, if raises then Raised(Raise("IndexError")) else Logged(Raise("IndexError")))
  {
    assert Fatal([Raise("IndexError")]) == [Step(Raise("IndexError"), true)];
  }

  /** A checkout outside the filter is skipped and untouched. */
  lemma FilteredOut(p: Product, filter: set<string>, raises: bool)
    requires ValidState(p.state) && filter != {} && LegacyScm.ProductName(p.path) !in filter
    ensures UpdateOne(p, filter, raises) == (p.state, Skipped)
  {
  }
}
