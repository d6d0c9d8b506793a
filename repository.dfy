// The repository as the branch flows see it: local branches with their commits
// (oldest first, history kept linear), the checked-out branch, the branches of the
// default remote, and a log of every SCM call that succeeded, tagged with the branch
// that was checked out when it ran. Working-tree contents are not modelled.
module Repository {
  import opened Wrappers

  type Hash = string
  type Branch = string

  /** How `update_repo` brings the checked-out branch up to date. */
  datatype PullMode =
    | FastForwardOnly   // `git pull --ff-only` (current generation)
    | PullRebase        // `git pull --rebase` (older generation)
    | SvnUpdate         // `svn update` on a repository that is not git

  /** One SCM call, as the adapters issue it. */
  datatype Op =
    | Checkout(branch: Branch, resetAs: Option<Branch>)   // git checkout <branch> [-B <resetAs>]
    | CreateBranch(branch: Branch, from: Option<Branch>)  // git checkout -b <branch> [<from>]
    | DeleteBranch(branch: Branch, force: bool)           // git branch -d|-D <branch>
    | DeleteRemoteBranch(branch: Branch)                  // git push <remote> --delete <branch>
    | HardReset(commit: Hash, back: nat)                  // git reset --hard <commit>~<back>
    | Pull(mode: PullMode)                                // update_repo
    | Rebase(onto: Branch)                                // git rebase <onto>
    | Merge(branch: Branch, squash: bool)                 // git merge <branch> [--squash]
    | Push(force: bool, setUpstream: bool)                // git push [--force] [--set-upstream <remote>]
    | AddFiles                                            // git add --all
    | Commit(hash: Hash, amend: bool)                     // git commit [--amend]; the new commit is `hash`
    | Raise(error: string)                                // a Python exception escapes the flow
    | Exit(code: int)                                     // sys.exit(code)

  /** A call that succeeded, with the branch that was checked out when it ran. */
  datatype Event = Event(op: Op, on: Branch)

  datatype RepoState = RepoState(
    heads: map<Branch, seq<Hash>>,
    current: Branch,
    remote: map<Branch, seq<Hash>>,
    log: seq<Event>)

  /** Once a branch exists, the checked-out branch is one of them; with no branches,
      `current` names the unborn branch the first commit will create. */
  predicate ValidState(s: RepoState)
  {
    s.heads == map[] || s.current in s.heads
  }

  /** `current_branch()`: None in a repository without branches. */
  function HeadBranch(s: RepoState): Option<Branch>
  {
    if s.heads == map[] then None else Some(s.current)
  }

  predicate IsPrefix(a: seq<Hash>, b: seq<Hash>)
  {
    |a| <= |b| && b[..|a|] == a
  }

  /** The commits of `xs` that are not in `ys`, in order. */
  function Unique(xs: seq<Hash>, ys: seq<Hash>): (r: seq<Hash>)
    ensures forall h :: h in r <==> h in xs && h !in ys
  {
    if xs == [] then []
    else (if xs[0] in ys then [] else [xs[0]]) + Unique(xs[1..], ys)
  }

  /** The first index of `h` in `hs`. */
  function IndexOf(hs: seq<Hash>, h: Hash): (i: nat)
    requires h in hs
    ensures i < |hs| && hs[i] == h && h !in hs[..i]
  {
    if hs[0] == h then 0 else 1 + IndexOf(hs[1..], h)
  }

  /** The branch is tracked on the remote (`remote_tracking_branch()` is set). */
  predicate Tracked(s: RepoState)
  {
    s.heads != map[] && s.current in s.remote
  }

  /** The state after ONE successful call, before the log entry is added; None when
      the command fails (git exits non-zero, or the Python code raises). */
  function Effect(s: RepoState, op: Op): Option<RepoState>
    requires ValidState(s)
  {
    match op
    case Checkout(b, resetAs) =>
      if b !in s.heads then None
      else if resetAs.Some? then Some(s.(heads := s.heads[resetAs.value := s.heads[b]], current := resetAs.value))
      else Some(s.(current := b))
    case CreateBranch(b, from) =>
      if b in s.heads then None
      else if from.Some? then
        if from.value in s.heads then Some(s.(heads := s.heads[b := s.heads[from.value]], current := b)) else None
      else
        var start := if s.heads == map[] then [] else s.heads[s.current];
        Some(s.(heads := s.heads[b := start], current := b))
    case DeleteBranch(b, force) =>
      if b !in s.heads || b == s.current then None
      else if !force && !(forall h :: h in s.heads[b] ==> h in s.heads[s.current]) then None
      else Some(s.(heads := s.heads - {b}))
    case DeleteRemoteBranch(b) =>
      if b in s.remote then Some(s.(remote := s.remote - {b})) else None
    case HardReset(h, n) =>
      if s.heads == map[] || h !in s.heads[s.current] then None
      else
        var hs := s.heads[s.current];
        var i := IndexOf(hs, h);
        if n > i then None else Some(s.(heads := s.heads[s.current := hs[..i + 1 - n]]))
    case Pull(mode) =>
      if mode == SvnUpdate then Some(s)
      else if mode == FastForwardOnly then
        if !Tracked(s) then Some(s)
        else
          var local, up := s.heads[s.current], s.remote[s.current];
          if IsPrefix(local, up) then Some(s.(heads := s.heads[s.current := up]))
          else if IsPrefix(up, local) then Some(s)
          else None
      else
        if !Tracked(s) then None
        else
          var local, up := s.heads[s.current], s.remote[s.current];
          Some(s.(heads := s.heads[s.current := up + Unique(local, up)]))
    case Rebase(p) =>
      if s.heads == map[] || p !in s.heads then None
      else Some(s.(heads := s.heads[s.current := s.heads[p] + Unique(s.heads[s.current], s.heads[p])]))
    case Merge(b, squash) =>
      if s.heads == map[] || b !in s.heads then None
      else if squash then Some(s)
      else Some(s.(heads := s.heads[s.current := s.heads[s.current] + Unique(s.heads[b], s.heads[s.current])]))
    case Push(force, setUpstream) =>
      if s.heads == map[] then None
      else if s.current !in s.remote && !setUpstream then None
      else if s.current in s.remote && !force && !IsPrefix(s.remote[s.current], s.heads[s.current]) then None
      else Some(s.(remote := s.remote[s.current := s.heads[s.current]]))
    case AddFiles => Some(s)
    case Commit(h, amend) =>
      var hs := if s.current in s.heads then s.heads[s.current] else [];
      if amend && hs == [] then None
      else Some(s.(heads := s.heads[s.current := (if amend then hs[..|hs| - 1] else hs) + [h]]))
    case Raise(_) => None
    case Exit(_) => None
  }

  /** One call: its effect, with the call logged on the branch it ran on. */
  function Apply(s: RepoState, op: Op): (r: Option<RepoState>)
    requires ValidState(s)
    ensures r.Some? ==> ValidState(r.value)
    ensures r.Some? ==> r.value.log == s.log + [Event(op, s.current)]
  {
    match Effect(s, op)
    case None => None
    case Some(t) => Some(t.(log := s.log + [Event(op, s.current)]))
  }

  /** A step of a flow. A fatal step that fails ends the flow; a non-fatal one is a
      best-effort call whose failure is ignored (`raises=False`). */
  datatype Step = Step(op: Op, fatal: bool)

  /** The outcome of a flow: the final state, and the call that stopped it, if any. */
  datatype Run = Run(state: RepoState, halt: Option<Op>)

  function Exec(s: RepoState, plan: seq<Step>): (r: Run)
    requires ValidState(s)
    ensures ValidState(r.state)
    decreases |plan|
  {
    if plan == [] then Run(s, None)
    else match Apply(s, plan[0].op)
      case Some(t) => Exec(t, plan[1..])
      case None => if plan[0].fatal then Run(s, Some(plan[0].op)) else Exec(s, plan[1..])
  }

  /** Fatal steps for a list of calls. */
  function Fatal(ops: seq<Op>): (r: seq<Step>)
    ensures |r| == |ops| && forall i :: 0 <= i < |ops| ==> r[i] == Step(ops[i], true)
  {
    if ops == [] then [] else [Step(ops[0], true)] + Fatal(ops[1..])
  }

  /** A raised exception changes nothing and stops the run. */
  lemma RaiseFails(s: RepoState, error: string)
    requires ValidState(s)
    ensures Apply(s, Raise(error)).None?
  {
  }

  /** A flow whose first fatal call fails stops there, with the state unchanged. */
  lemma ExecFirstFails(s: RepoState, op: Op, rest: seq<Step>)
    requires ValidState(s) && Apply(s, op).None?
    ensures Exec(s, [Step(op, true)] + rest) == Run(s, Some(op))
  {
    assert ([Step(op, true)] + rest)[0] == Step(op, true);
  }

  /** Running two plans one after the other is running their concatenation; the second
      does not start when the first was stopped. */
  lemma {:induction false} ExecAppend(s: RepoState, p: seq<Step>, q: seq<Step>)
    requires ValidState(s)
    ensures Exec(s, p + q) == (var r := Exec(s, p); if r.halt.Some? then r else Exec(r.state, q))
    decreases |p|
  {
    if p != [] {
      assert (p + q)[0] == p[0] && (p + q)[1..] == p[1..] + q;
      match Apply(s, p[0].op)
      case Some(t) => ExecAppend(t, p[1..], q);
      case None => if !p[0].fatal { ExecAppend(s, p[1..], q); }
    } else {
      assert p + q == q;
    }
  }

  /** A plan that halts ignores whatever follows it. */
  lemma ExecHalted(s: RepoState, p: seq<Step>, q: seq<Step>)
    requires ValidState(s) && Exec(s, p).halt.Some?
    ensures Exec(s, p + q) == Exec(s, p)
  {
    ExecAppend(s, p, q);
  }

  /** A run only appends to the log, and each entry is a call of the plan in order. */
  lemma {:induction false} ExecLogGrows(s: RepoState, plan: seq<Step>)
    requires ValidState(s)
    ensures |s.log| <= |Exec(s, plan).state.log| && Exec(s, plan).state.log[..|s.log|] == s.log
    ensures |Exec(s, plan).state.log| - |s.log| <= |plan|
    decreases |plan|
  {
    if plan != [] {
      match Apply(s, plan[0].op)
      case Some(t) =>
        ExecLogGrows(t, plan[1..]);
        assert t.log[..|s.log|] == s.log;
      case None =>
        if !plan[0].fatal { ExecLogGrows(s, plan[1..]); }
    }
  }

  /** A run that stops was stopped by a fatal step of the plan; the log is unchanged
      from that failing call on. */
  lemma {:induction false} ExecHaltIsFatal(s: RepoState, plan: seq<Step>)
    requires ValidState(s)
    ensures Exec(s, plan).halt.Some? ==> Step(Exec(s, plan).halt.value, true) in plan
    decreases |plan|
  {
    if plan != [] {
      match Apply(s, plan[0].op)
      case Some(t) => ExecHaltIsFatal(t, plan[1..]);
      case None => if !plan[0].fatal { ExecHaltIsFatal(s, plan[1..]); }
    }
  }

  /** The calls recorded in a log, in order. */
  function Calls(log: seq<Event>): (r: seq<Op>)
    ensures |r| == |log| && forall i :: 0 <= i < |log| ==> r[i] == log[i].op
  {
    if log == [] then [] else [log[0].op] + Calls(log[1..])
  }

  lemma CallsAppend(a: seq<Event>, b: seq<Event>)
    ensures Calls(a + b) == Calls(a) + Calls(b)
  {
    assert |Calls(a + b)| == |Calls(a) + Calls(b)|;
    forall i | 0 <= i < |a + b|
      ensures Calls(a + b)[i] == (Calls(a) + Calls(b))[i]
    {
      if i < |a| { assert (a + b)[i] == a[i]; } else { assert (a + b)[i] == b[i - |a|]; }
    }
  }

  /** The calls applied one after the other; None as soon as one of them fails. */
  function ApplyAll(s: RepoState, ops: seq<Op>): (r: Option<RepoState>)
    requires ValidState(s)
    ensures r.Some? ==> ValidState(r.value)
    decreases |ops|
  {
    if ops == [] then Some(s)
    else match Apply(s, ops[0])
      case None => None
      case Some(t) => ApplyAll(t, ops[1..])
  }

  lemma {:induction false} ApplyAllAppend(s: RepoState, a: seq<Op>, b: seq<Op>)
    requires ValidState(s)
    ensures ApplyAll(s, a + b) == (match ApplyAll(s, a) case None => None case Some(t) => ApplyAll(t, b))
    decreases |a|
  {
    if a == [] {
      assert a + b == b;
    } else {
      assert (a + b)[0] == a[0] && (a + b)[1..] == a[1..] + b;
      match Apply(s, a[0])
      case None =>
      case Some(t) => ApplyAllAppend(t, a[1..], b);
    }
  }

  lemma ApplyAllCons(s: RepoState, op: Op, rest: seq<Op>)
    requires ValidState(s)
    ensures ApplyAll(s, [op] + rest) == (match Apply(s, op) case None => None case Some(t) => ApplyAll(t, rest))
  {
    assert ([op] + rest)[0] == op && ([op] + rest)[1..] == rest;
  }

  // ---- single calls, one at a time (used to follow a flow call by call) ----

  lemma ApplyCheckout(s: RepoState, b: Branch)
    requires ValidState(s)
    ensures Apply(s, Checkout(b, None)).Some? <==> b in s.heads
    ensures b in s.heads ==> Apply(s, Checkout(b, None)).value == s.(current := b, log := s.log + [Event(Checkout(b, None), s.current)])
  {
  }

  lemma ApplyCheckoutAs(s: RepoState, b: Branch, resetAs: Option<Branch>)
    requires ValidState(s) && b in s.heads
    ensures var r := Apply(s, Checkout(b, resetAs));
      var on := if resetAs.Some? then resetAs.value else b;
      && r.Some? && r.value.current == on && r.value.remote == s.remote
      && r.value.heads == s.heads[on := s.heads[b]]
  {
    if resetAs.None? {
      assert s.heads[b := s.heads[b]] == s.heads;
    }
  }

  lemma ApplyAddFiles(s: RepoState)
    requires ValidState(s)
    ensures Apply(s, AddFiles) == Some(s.(log := s.log + [Event(AddFiles, s.current)]))
  {
  }

  lemma ApplyCommit(s: RepoState, h: Hash, amend: bool)
    requires ValidState(s)
    ensures var hs := if s.current in s.heads then s.heads[s.current] else [];
      var r := Apply(s, Commit(h, amend));
      && (r.Some? <==> !amend || hs != [])
      && (r.Some? ==> r.value.current == s.current && r.value.remote == s.remote
                      && r.value.heads == s.heads[s.current := (if amend then hs[..|hs| - 1] else hs) + [h]])
  {
  }

  lemma ApplyPull(s: RepoState, mode: PullMode)
    requires ValidState(s) && Apply(s, Pull(mode)).Some?
    ensures var t := Apply(s, Pull(mode)).value;
      && t.current == s.current && t.remote == s.remote && t.heads.Keys == s.heads.Keys
      && (forall x :: x in s.heads && x != s.current ==> t.heads[x] == s.heads[x])
  {
  }

  /** `git pull --rebase` puts the branch's own commits after those on the remote. */
  lemma ApplyPullRebase(s: RepoState)
    requires ValidState(s) && Apply(s, Pull(PullRebase)).Some?
    ensures Tracked(s)
    ensures var t := Apply(s, Pull(PullRebase)).value;
      && t.current == s.current && t.remote == s.remote
      && t.heads == s.heads[s.current := s.remote[s.current] + Unique(s.heads[s.current], s.remote[s.current])]
  {
  }

  lemma ApplyRebase(s: RepoState, p: Branch)
    requires ValidState(s) && Apply(s, Rebase(p)).Some?
    ensures s.heads != map[] && p in s.heads
    ensures var t := Apply(s, Rebase(p)).value;
      && t.current == s.current && t.remote == s.remote
      && t.heads == s.heads[s.current := s.heads[p] + Unique(s.heads[s.current], s.heads[p])]
  {
  }

  lemma ApplyMerge(s: RepoState, b: Branch, squash: bool)
    requires ValidState(s) && Apply(s, Merge(b, squash)).Some?
    ensures s.heads != map[] && b in s.heads
    ensures var t := Apply(s, Merge(b, squash)).value;
      && t.current == s.current && t.remote == s.remote
      && t.heads == (if squash then s.heads else s.heads[s.current := s.heads[s.current] + Unique(s.heads[b], s.heads[s.current])])
  {
  }

  lemma ApplyPush(s: RepoState, force: bool, setUpstream: bool)
    requires ValidState(s) && Apply(s, Push(force, setUpstream)).Some?
    ensures s.heads != map[]
    ensures var t := Apply(s, Push(force, setUpstream)).value;
      && t.current == s.current && t.heads == s.heads && t.remote == s.remote[s.current := s.heads[s.current]]
  {
  }

  /** Checking out a branch and pulling it changes that branch only. */
  lemma CheckoutPull(s: RepoState, p: Branch, mode: PullMode)
    requires ValidState(s) && ApplyAll(s, [Checkout(p, None), Pull(mode)]).Some?
    ensures var t := ApplyAll(s, [Checkout(p, None), Pull(mode)]).value;
      && t.current == p && p in s.heads && t.remote == s.remote && t.heads.Keys == s.heads.Keys
      && (forall x :: x in s.heads && x != p ==> t.heads[x] == s.heads[x])
  {
    var ops := [Checkout(p, None), Pull(mode)];
    ApplyAllCons(s, ops[0], ops[1..]);
    ApplyCheckout(s, p);
    var s1 := Apply(s, ops[0]).value;
    ApplyAllCons(s1, ops[1], []);
    ApplyPull(s1, mode);
  }

  /** Checking out a branch and rebasing it onto another. */
  lemma CheckoutRebase(s: RepoState, b: Branch, p: Branch)
    requires ValidState(s) && ApplyAll(s, [Checkout(b, None), Rebase(p)]).Some?
    ensures var t := ApplyAll(s, [Checkout(b, None), Rebase(p)]).value;
      && t.current == b && b in s.heads && p in s.heads && t.remote == s.remote
      && t.heads == s.heads[b := s.heads[p] + Unique(s.heads[b], s.heads[p])]
  {
    var ops := [Checkout(b, None), Rebase(p)];
    ApplyAllCons(s, ops[0], ops[1..]);
    ApplyCheckout(s, b);
    var s1 := Apply(s, ops[0]).value;
    ApplyAllCons(s1, ops[1], []);
    ApplyRebase(s1, p);
  }

  /** Updating a parent branch and rebasing a child onto it: checkout the parent, pull,
      checkout the child, rebase. On success the child is checked out and holds the
      pulled parent's commits followed by its own; only those two branches change. */
  lemma ParentRebase(s: RepoState, p: Branch, b: Branch, mode: PullMode)
    requires ValidState(s) && p != b
    requires ApplyAll(s, [Checkout(p, None), Pull(mode), Checkout(b, None), Rebase(p)]).Some?
    ensures var t := ApplyAll(s, [Checkout(p, None), Pull(mode), Checkout(b, None), Rebase(p)]).value;
      && t.current == b && p in t.heads && b in t.heads && b in s.heads
      && t.heads[b] == t.heads[p] + Unique(s.heads[b], t.heads[p])
      && t.remote == s.remote && t.heads.Keys == s.heads.Keys
      && (forall x :: x in s.heads && x != p && x != b ==> t.heads[x] == s.heads[x])
  {
    var a, c := [Checkout(p, None), Pull(mode)], [Checkout(b, None), Rebase(p)];
    assert [Checkout(p, None), Pull(mode), Checkout(b, None), Rebase(p)] == a + c;
    ApplyAllAppend(s, a, c);
    CheckoutPull(s, p, mode);
    var s2 := ApplyAll(s, a).value;
    CheckoutRebase(s2, b, p);
  }

  /** Calls that neither create nor delete a branch. */
  predicate KeepsBranches(op: Op)
  {
    (op.Checkout? && op.resetAs.None?) || op.Pull? || op.Rebase? || op.Merge? || op.Push?
  }

  lemma {:induction false} ApplyAllKeepsBranches(s: RepoState, ops: seq<Op>)
    requires ValidState(s) && ApplyAll(s, ops).Some?
    requires forall i :: 0 <= i < |ops| ==> KeepsBranches(ops[i])
    ensures ApplyAll(s, ops).value.heads.Keys == s.heads.Keys
    decreases |ops|
  {
    if ops != [] {
      var t := Apply(s, ops[0]).value;
      assert t.heads.Keys == s.heads.Keys;
      ApplyAllKeepsBranches(t, ops[1..]);
    }
  }

  /** A plan of fatal steps makes its calls in order and stops at the first one that
      fails: the log gains exactly the calls before it, and that call is the halt. */
  lemma {:induction false} FatalRunOrder(s: RepoState, ops: seq<Op>) returns (k: nat)
    requires ValidState(s)
    ensures k <= |ops|
    ensures Calls(Exec(s, Fatal(ops)).state.log) == Calls(s.log) + ops[..k]
    ensures Exec(s, Fatal(ops)).halt == (if k == |ops| then None else Some(ops[k]))
    ensures ApplyAll(s, ops[..k]) == Some(Exec(s, Fatal(ops)).state)
    ensures k == |ops| <==> ApplyAll(s, ops).Some?
    decreases |ops|
  {
    if ops == [] {
      k := 0;
    } else {
      var f := Fatal(ops);
      assert f[0] == Step(ops[0], true) && f[1..] == Fatal(ops[1..]);
      match Apply(s, ops[0])
      case None =>
        k := 0;
        assert ops[..k] == [];
      case Some(t) =>
        var j := FatalRunOrder(t, ops[1..]);
        k := j + 1;
        CallsAppend(s.log, [Event(ops[0], s.current)]);
        assert ops[..k] == [ops[0]] + ops[1..][..j];
        assert ([ops[0]] + ops[1..][..j])[0] == ops[0] && ([ops[0]] + ops[1..][..j])[1..] == ops[1..][..j];
    }
  }

  /** A plan of fatal steps that ran to the end made all its calls, in order. */
  lemma FatalComplete(s: RepoState, ops: seq<Op>)
    requires ValidState(s) && Exec(s, Fatal(ops)).halt.None?
    ensures ApplyAll(s, ops) == Some(Exec(s, Fatal(ops)).state)
    ensures Calls(Exec(s, Fatal(ops)).state.log) == Calls(s.log) + ops
  {
    var k := FatalRunOrder(s, ops);
    assert ops[..k] == ops;
  }

  /** A plan of fatal steps runs to the end exactly when its calls all succeed one
      after the other, and then ends in the state they reach. */
  lemma FatalIsApplyAll(s: RepoState, ops: seq<Op>)
    requires ValidState(s)
    ensures Exec(s, Fatal(ops)).halt.None? <==> ApplyAll(s, ops).Some?
    ensures ApplyAll(s, ops).Some? ==> Exec(s, Fatal(ops)).state == ApplyAll(s, ops).value
  {
    var k := FatalRunOrder(s, ops);
    if k == |ops| { assert ops[..k] == ops; }
  }

  /** A plan of fatal steps that neither creates nor deletes a branch keeps the set of
      branches, wherever it stops. */
  lemma FatalKeepsBranches(s: RepoState, ops: seq<Op>)
    requires ValidState(s) && forall i :: 0 <= i < |ops| ==> KeepsBranches(ops[i])
    ensures Exec(s, Fatal(ops)).state.heads.Keys == s.heads.Keys
  {
    var k := FatalRunOrder(s, ops);
    assert forall i :: 0 <= i < |ops[..k]| ==> KeepsBranches(ops[..k][i]);
    ApplyAllKeepsBranches(s, ops[..k]);
  }

  // ---- calls that lose no commit ----

  /** Every branch of `s` is still in `t` and keeps all its commits. */
  predicate Grows(s: RepoState, t: RepoState)
  {
    forall x :: x in s.heads ==> x in t.heads && forall h :: h in s.heads[x] ==> h in t.heads[x]
  }

  lemma GrowsTrans(s: RepoState, t: RepoState, u: RepoState)
    requires Grows(s, t) && Grows(t, u)
    ensures Grows(s, u)
  {
  }

  /** Calls that never drop a commit from a branch: a plain checkout, a fast-forward
      pull, a rebase, a merge, a push. A `-B` checkout, a hard reset, a deletion or
      an amend can. */
  predicate KeepsCommits(op: Op)
  {
    (op.Checkout? && op.resetAs.None?) || op == Pull(FastForwardOnly) || op.Rebase? || op.Merge? || op.Push?
  }

  lemma PrefixMembers(a: seq<Hash>, b: seq<Hash>)
    requires IsPrefix(a, b)
    ensures forall h :: h in a ==> h in b
  {
    forall h | h in a ensures h in b {
      var i :| 0 <= i < |a| && a[i] == h;
      assert b[i] == h;
    }
  }

  lemma ApplyGrows(s: RepoState, op: Op)
    requires ValidState(s) && KeepsCommits(op) && Apply(s, op).Some?
    ensures Grows(s, Apply(s, op).value)
  {
    if op == Pull(FastForwardOnly) && Tracked(s) {
      var local, up := s.heads[s.current], s.remote[s.current];
      if IsPrefix(local, up) { PrefixMembers(local, up); }
    }
  }

  lemma {:induction false} ApplyAllGrows(s: RepoState, ops: seq<Op>)
    requires ValidState(s) && ApplyAll(s, ops).Some?
    requires forall op :: op in ops ==> KeepsCommits(op)
    ensures Grows(s, ApplyAll(s, ops).value)
    decreases |ops|
  {
    if ops != [] {
      ApplyGrows(s, ops[0]);
      var t := Apply(s, ops[0]).value;
      assert forall op :: op in ops[1..] ==> op in ops;
      ApplyAllGrows(t, ops[1..]);
      GrowsTrans(s, t, ApplyAll(t, ops[1..]).value);
    }
  }

  /** A fatal plan of such calls loses no commit, wherever it stops. */
  lemma FatalGrows(s: RepoState, ops: seq<Op>)
    requires ValidState(s) && forall op :: op in ops ==> KeepsCommits(op)
    ensures Grows(s, Exec(s, Fatal(ops)).state)
  {
    var k := FatalRunOrder(s, ops);
    assert forall op :: op in ops[..k] ==> op in ops;
    ApplyAllGrows(s, ops[..k]);
  }

  /** The repository object every SCM adapter call acts on. */
  class Repo {
    var heads: map<Branch, seq<Hash>>
    var current: Branch
    var remote: map<Branch, seq<Hash>>
    var log: seq<Event>

    function State(): RepoState
      reads this
    {
      RepoState(heads, current, remote, log)
    }

    ghost predicate Valid()
      reads this
    {
      ValidState(State())
    }

    constructor (s: RepoState)
      requires ValidState(s)
      ensures State() == s && Valid()
    {
      heads, current, remote, log := s.heads, s.current, s.remote, s.log;
    }

    /** `current_branch()`. */
    function CurrentBranch(): (r: Option<Branch>)
      reads this
      requires Valid()
      ensures r.Some? <==> heads != map[]
      ensures r.Some? ==> r.value == current && r.value in heads
    {
      HeadBranch(State())
    }

    /** `checkout_branch(branch)`, optionally with `-B resetAs`. */
    method CheckoutBranch(branch: Branch, resetAs: Option<Branch>) returns (ok: bool)
      requires Valid()
      modifies this
      ensures Valid() && remote == old(remote)
      ensures ok <==> branch in old(heads)
      ensures ok && resetAs.None? ==> heads == old(heads) && current == branch
      ensures ok && resetAs.Some? ==> heads == old(heads)[resetAs.value := old(heads)[branch]] && current == resetAs.value
      ensures ok ==> log == old(log) + [Event(Checkout(branch, resetAs), old(current))]
      ensures !ok ==> State() == old(State())
    {
      ok := branch in heads;
      if ok {
        log := log + [Event(Checkout(branch, resetAs), current)];
        if resetAs.Some? {
          heads := heads[resetAs.value := heads[branch]];
          current := resetAs.value;
        } else {
          current := branch;
        }
      }
    }

    /** `create_branch(branch, from_branch)`: a new branch at the start point, checked out. */
    method CreateBranch(branch: Branch, from: Option<Branch>) returns (ok: bool)
      requires Valid()
      modifies this
      ensures Valid() && remote == old(remote)
      ensures ok <==> branch !in old(heads) && (from.Some? ==> from.value in old(heads))
      ensures ok ==> current == branch
      ensures ok && from.Some? ==> heads == old(heads)[branch := old(heads)[from.value]]
      ensures ok && from.None? && old(heads) != map[] ==> heads == old(heads)[branch := old(heads)[old(current)]]
      ensures ok && from.None? && old(heads) == map[] ==> heads == map[branch := []]
      ensures ok ==> log == old(log) + [Event(Op.CreateBranch(branch, from), old(current))]
      ensures !ok ==> State() == old(State())
    {
      ok := branch !in heads && (from.Some? ==> from.value in heads);
      if ok {
        var start := if from.Some? then heads[from.value] else if heads == map[] then [] else heads[current];
        log := log + [Event(Op.CreateBranch(branch, from), current)];
        heads := heads[branch := start];
        current := branch;
      }
    }

    /** `git branch -d|-D branch`: `-d` refuses a branch whose commits are not all on
        the checked-out branch; neither deletes the checked-out branch. */
    method DeleteBranch(branch: Branch, force: bool) returns (ok: bool)
      requires Valid()
      modifies this
      ensures Valid() && remote == old(remote) && current == old(current)
      ensures ok <==> branch in old(heads) && branch != old(current)
                      && (force || forall h :: h in old(heads)[branch] ==> h in old(heads)[old(current)])
      ensures ok ==> heads == old(heads) - {branch}
      ensures ok ==> log == old(log) + [Event(Op.DeleteBranch(branch, force), old(current))]
      ensures !ok ==> State() == old(State())
    {
      ok := branch in heads && branch != current
            && (force || forall h :: h in heads[branch] ==> h in heads[current]);
      if ok {
        log := log + [Event(Op.DeleteBranch(branch, force), current)];
        heads := heads - {branch};
      }
    }

    /** `git push <default remote> --delete branch`. */
    method DeleteRemoteBranch(branch: Branch) returns (ok: bool)
      requires Valid()
      modifies this
      ensures Valid() && heads == old(heads) && current == old(current)
      ensures ok <==> branch in old(remote)
      ensures ok ==> remote == old(remote) - {branch}
      ensures ok ==> log == old(log) + [Event(Op.DeleteRemoteBranch(branch), old(current))]
      ensures !ok ==> State() == old(State())
    {
      ok := branch in remote;
      if ok {
        log := log + [Event(Op.DeleteRemoteBranch(branch), current)];
        remote := remote - {branch};
      }
    }

    /** `hard_reset(commit + '~' + back)` on the checked-out branch. */
    method HardReset(commit: Hash, back: nat) returns (ok: bool)
      requires Valid()
      modifies this
      ensures Valid() && remote == old(remote) && current == old(current)
      ensures ok <==> old(heads) != map[] && commit in old(heads)[current] && back <= IndexOf(old(heads)[current], commit)
      ensures ok ==> heads == old(heads)[current := old(heads)[current][..IndexOf(old(heads)[current], commit) + 1 - back]]
      ensures ok ==> log == old(log) + [Event(Op.HardReset(commit, back), current)]
      ensures !ok ==> State() == old(State())
    {
      ok := heads != map[] && commit in heads[current] && back <= IndexOf(heads[current], commit);
      if ok {
        var hs := heads[current];
        log := log + [Event(Op.HardReset(commit, back), current)];
        heads := heads[current := hs[..IndexOf(hs, commit) + 1 - back]];
      }
    }

    /** `update_repo()`. */
    method Pull(mode: PullMode) returns (ok: bool)
      requires Valid()
      modifies this
      ensures Valid() && ok == Effect(old(State()), Op.Pull(mode)).Some?
      ensures ok ==> State() == Apply(old(State()), Op.Pull(mode)).value
      ensures !ok ==> State() == old(State())
    {
      ghost var s := State();
      ok := true;
      if mode == SvnUpdate {
      } else if mode == FastForwardOnly {
        if Tracked(State()) {
          var local, up := heads[current], remote[current];
          if IsPrefix(local, up) {
            heads := heads[current := up];
          } else if !IsPrefix(up, local) {
            ok := false;
          }
        }
      } else {
        if Tracked(State()) {
          var local, up := heads[current], remote[current];
          heads := heads[current := up + Unique(local, up)];
        } else {
          ok := false;
        }
      }
      if ok {
        log := log + [Event(Op.Pull(mode), current)];
      }
    }

    /** `update_branch(parent)`: `git rebase parent` with the branch's own commits
        replayed on top of the parent's. */
    method Rebase(onto: Branch) returns (ok: bool)
      requires Valid()
      modifies this
      ensures Valid() && remote == old(remote) && current == old(current)
      ensures ok <==> old(heads) != map[] && onto in old(heads)
      ensures ok ==> heads == old(heads)[current := old(heads)[onto] + Unique(old(heads)[current], old(heads)[onto])]
      ensures ok ==> log == old(log) + [Event(Op.Rebase(onto), current)]
      ensures !ok ==> State() == old(State())
    {
      ok := heads != map[] && onto in heads;
      if ok {
        log := log + [Event(Op.Rebase(onto), current)];
        heads := heads[current := heads[onto] + Unique(heads[current], heads[onto])];
      }
    }

    /** `merge_branch(branch, squash)`: a squash merge only stages the changes. */
    method Merge(branch: Branch, squash: bool) returns (ok: bool)
      requires Valid()
      modifies this
      ensures Valid() && remote == old(remote) && current == old(current)
      ensures ok <==> old(heads) != map[] && branch in old(heads)
      ensures ok && squash ==> heads == old(heads)
      ensures ok && !squash ==> heads == old(heads)[current := old(heads)[current] + Unique(old(heads)[branch], old(heads)[current])]
      ensures ok ==> log == old(log) + [Event(Op.Merge(branch, squash), current)]
      ensures !ok ==> State() == old(State())
    {
      ok := heads != map[] && branch in heads;
      if ok {
        log := log + [Event(Op.Merge(branch, squash), current)];
        if !squash {
          heads := heads[current := heads[current] + Unique(heads[branch], heads[current])];
        }
      }
    }

    /** `push_repo()`: the remote branch becomes the local one; a push without
        `--force` is refused unless it fast-forwards, and an untracked branch needs
        `--set-upstream`. */
    method Push(force: bool, setUpstream: bool) returns (ok: bool)
      requires Valid()
      modifies this
      ensures Valid() && heads == old(heads) && current == old(current)
      ensures ok <==> old(heads) != map[] && (current in old(remote) || setUpstream)
                      && (current in old(remote) && !force ==> IsPrefix(old(remote)[current], heads[current]))
      ensures ok ==> remote == old(remote)[current := heads[current]]
      ensures ok ==> log == old(log) + [Event(Op.Push(force, setUpstream), current)]
      ensures !ok ==> State() == old(State())
    {
      ok := heads != map[] && (current in remote || setUpstream)
            && (current in remote && !force ==> IsPrefix(remote[current], heads[current]));
      if ok {
        log := log + [Event(Op.Push(force, setUpstream), current)];
        remote := remote[current := heads[current]];
      }
    }

    /** `add_files()`: stages the working tree, which the model does not hold. */
    method AddFiles() returns (ok: bool)
      requires Valid()
      modifies this
      ensures ok && heads == old(heads) && current == old(current) && remote == old(remote)
      ensures log == old(log) + [Event(Op.AddFiles, current)]
    {
      ok := true;
      log := log + [Event(Op.AddFiles, current)];
    }

    /** `local_commit(msg, amend)`: the new commit `hash` goes on top of the checked-out
        branch, replacing its last commit when amending. */
    method LocalCommit(hash: Hash, amend: bool) returns (ok: bool)
      requires Valid()
      modifies this
      ensures Valid() && remote == old(remote) && current == old(current)
      ensures ok <==> !amend || (current in old(heads) && old(heads)[current] != [])
      ensures ok && !amend ==> heads == old(heads)[current := (if current in old(heads) then old(heads)[current] else []) + [hash]]
      ensures ok && amend ==> heads == old(heads)[current := old(heads)[current][..|old(heads)[current]| - 1] + [hash]]
      ensures ok ==> log == old(log) + [Event(Op.Commit(hash, amend), current)]
      ensures !ok ==> State() == old(State())
    {
      var hs := if current in heads then heads[current] else [];
      ok := !amend || hs != [];
      if ok {
        log := log + [Event(Op.Commit(hash, amend), current)];
        heads := heads[current := (if amend then hs[..|hs| - 1] else hs) + [hash]];
      }
    }

    /** Issues one call through the adapter method that implements it. */
    method Perform(op: Op) returns (ok: bool)
      requires Valid()
      modifies this
      ensures Valid()
      ensures ok ==> Apply(old(State()), op) == Some(State())
      ensures !ok ==> Apply(old(State()), op).None? && State() == old(State())
    {
      match op {
        case Checkout(b, resetAs) => ok := CheckoutBranch(b, resetAs);
        case CreateBranch(b, from) => ok := CreateBranch(b, from);
        case DeleteBranch(b, force) => ok := DeleteBranch(b, force);
        case DeleteRemoteBranch(b) => ok := DeleteRemoteBranch(b);
        case HardReset(h, n) => ok := HardReset(h, n);
        case Pull(mode) => ok := Pull(mode);
        case Rebase(p) => ok := Rebase(p);
        case Merge(b, squash) => ok := Merge(b, squash);
        case Push(force, setUpstream) => ok := Push(force, setUpstream);
        case AddFiles => ok := AddFiles();
        case Commit(h, amend) => ok := LocalCommit(h, amend);
        case Raise(_) => ok := false;
        case Exit(_) => ok := false;
      }
    }

    /** Runs the calls of a flow in order, stopping at the first fatal failure. */
    method Execute(plan: seq<Step>) returns (halt: Option<Op>)
      requires Valid()
      modifies this
      ensures Valid()
      ensures Exec(old(State()), plan) == Run(State(), halt)
    {
      var i := 0;
      halt := None;
      while i < |plan|
        invariant 0 <= i <= |plan| && Valid()
        invariant Exec(old(State()), plan) == Exec(State(), plan[i..])
      {
        var ok := Perform(plan[i].op);
        assert plan[i..][1..] == plan[i + 1..];
        if !ok && plan[i].fatal {
          halt := Some(plan[i].op);
          return;
        }
        i := i + 1;
      }
    }
  }
}
