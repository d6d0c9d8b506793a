// `wst commit` of the older generation (src/workspace/commands/commit.py): the dummy
// commit that triggers a build, `--discard`/`--move` with master as the only root,
// and the commit path, which auto-branches only from master.
module LegacyCommit {
  import opened Wrappers
  import opened Text
  import opened Repository
  import LegacyScm
  import LegacyPush
  import WsUpdate
  import WsCommit
  import BranchNaming

  /** The history text the flow asks git for. */
  datatype LogQuery =
    | CommitLogs(limit: nat)   // `git log -<limit>` on the checked-out branch
    | DiffMaster(right: Branch) // `git log master..<right>`

  /** The options of `commit` that the model follows; `msg` is "" when none is given. */
  datatype CommitArgs = CommitArgs(
    msg: string,
    branch: Option<Branch>,
    amend: bool,
    push: bool,
    dummy: bool,
    discard: nat,
    move: Option<Branch>,
    skipAutoBranch: bool)

  const DefaultDummyMessage := "Empty commit to trigger build"

  // ---------------------------------------------------------------------------
  // `--dummy`

  /** The message of the empty commit: the given one, else the default. */
  function DummyMessage(msg: string): (r: string)
    ensures r != ""
    ensures msg != "" ==> r == msg
  {
    if msg != "" then msg else DefaultDummyMessage
  }

  /** Checkout master, update it, make the empty commit `hash`, then push master. */
  function DummySteps(hash: Hash): seq<Step>
  {
    Fatal([Checkout(LegacyScm.Master, None), Pull(PullRebase), Commit(hash, false)])
      + LegacyPush.PushStepsAsWritten(None, Some(LegacyScm.Master))
  }

  // ---------------------------------------------------------------------------
  // `--discard` and `--move`

  /** `re.match('([a-f0-9]+)\n', entry)`: the hash must end the first line. */
  function MatchHash(e: string): (r: Option<Hash>)
    ensures r.Some? ==> r.value != "" && WsCommit.AllHex(r.value)
  {
    var k := WsCommit.HexLength(e);
    if 0 < k < |e| && e[k] == '\n' then Some(e[..k]) else None
  }

  /** The hash is read from the first line of an entry of an undecorated log. */
  lemma PlainEntryMatches(h: Hash, rest: string)
    requires h != "" && WsCommit.AllHex(h)
    ensures MatchHash(h + "\n" + rest) == Some(h)
  {
    var e := h + "\n" + rest;
    assert e == h + ("\n" + rest);
    WsCommit.HexLengthOf(h, "\n" + rest);
    assert e[..|h|] == h;
  }

  /** Where this regex finds a hash, the decoration-tolerant one of the current
      generation finds the same. */
  lemma MatchesAgree(e: string)
    ensures MatchHash(e).Some? ==> WsCommit.MatchHash(e) == MatchHash(e)
  {
    var k := WsCommit.HexLength(e);
    if MatchHash(e).Some? {
      assert OccursAt(e, "\n", k) by { assert e[k..k + 1] == "\n"; }
      assert FindFrom(e, "\n", k) == Some(k);
    }
  }

  /** The branch the path works on: `--branch`, else `current_branch()` for
      `--discard` (None where it raises IndexError), else the `--move` target. */
  function TargetBranch(current: Option<Branch>, a: CommitArgs): (r: Option<Branch>)
  {
    if WsUpdate.Given(a.branch) then a.branch else if a.discard > 0 then current else a.move
  }

  /** Where the changes come from: the last `discard` commits of master, the commits
      of any other branch that master lacks, or the last commit for `--move`. */
  function ChangesQuery(b: Branch, discard: nat): LogQuery
  {
    if discard > 0 then (if b == LegacyScm.Master then CommitLogs(discard) else DiffMaster(b))
    else CommitLogs(1)
  }

  /** The move: `current_branch()` (raising IndexError with no branches), a new branch
      at the checked-out commit, back to the branch, which loses its last commit. */
  function MoveCalls(current: Option<Branch>, b: Branch, h: Hash): seq<Op>
  {
    if current.None? then [Raise("IndexError")]
    else [CreateBranch(b, None), Checkout(current.value, None), HardReset(h, 1)]
  }

  /** The calls of the `--discard`/`--move` path; `logs` answers the history query. An
      entry without a readable hash is logged and nothing is called. */
  function DiscardSteps(current: Option<Branch>, a: CommitArgs, logs: LogQuery -> string): seq<Step>
  {
    match TargetBranch(current, a)
    case None => Fatal([Raise("IndexError")])
    case Some(b) =>
      var changes := WsCommit.Entries(logs(ChangesQuery(b, a.discard)));
      if a.discard > 0 && |changes| <= a.discard && b != LegacyScm.Master then
        Fatal([Checkout(LegacyScm.Master, None), DeleteBranch(b, true)])
      else if changes == [] then Fatal([Raise("IndexError")])
      else
        match MatchHash(changes[0])
        case None => []
        case Some(h) =>
          if a.move.Some? then Fatal(MoveCalls(current, b, h))
          else Fatal([Checkout(b, None), HardReset(h, a.discard)])
  }

  // ---------------------------------------------------------------------------
  // The commit path

  /** The auto-branch test: none of `--skip-auto-branch`, `--push`, `--amend`; master is
      checked out; no branch given; a message; a word budget. */
  predicate AutoBranch(a: CommitArgs, words: nat, branches: seq<Branch>)
  {
    && !(a.skipAutoBranch || a.push || a.amend)
    && branches != [] && branches[0] == LegacyScm.Master
    && !WsUpdate.Given(a.branch)
    && a.msg != ""
    && words > 0
  }

  /** The branch the commit goes to: the derived name (when it is not empty), the
      `--branch` option, or none; Err when no name can be derived. */
  function CommitBranch(a: CommitArgs, words: nat, branches: seq<Branch>): Result<Option<Branch>>
  {
    if AutoBranch(a, words, branches) then
      match BranchNaming.BranchName(a.msg, words, branches)
      case Err(e) => Err(e)
      case Ok(n) => Ok(if n != "" then Some(n) else None)
    else if WsUpdate.Given(a.branch) then Ok(a.branch)
    else Ok(None)
  }

  /** Getting onto the commit branch: check out an existing other branch, create a
      missing one from master, or create it in an empty repository. */
  function Materialise(b: Branch, branches: seq<Branch>): seq<Op>
  {
    if branches != [] then
      if b in branches then (if b != branches[0] then [Checkout(b, None)] else [])
      else [CreateBranch(b, Some(LegacyScm.Master))]
    else [CreateBranch(b, None)]
  }

  /** The branch checked out once the commit is made; `head` is the checked-out (or
      unborn) branch. */
  function CommitTarget(nb: Option<Branch>, head: Branch): Branch
  {
    if nb.Some? then nb.value else head
  }

  /** Getting onto the commit branch, `add_files()` and `local_commit(msg, amend)`. */
  function CommitCalls(nb: Option<Branch>, branches: seq<Branch>, hash: Hash, amend: bool): seq<Op>
  {
    (if nb.Some? then Materialise(nb.value, branches) else []) + [AddFiles, Commit(hash, amend)]
  }

  /** The calls of the commit path; `--push` hands over to `push`, as written, for the
      branch that is then checked out. */
  function CommitSteps(a: CommitArgs, words: nat, branches: seq<Branch>, head: Branch, hash: Hash): seq<Step>
  {
    match CommitBranch(a, words, branches)
    case Err(_) => Fatal([Raise("Exception")])
    case Ok(nb) =>
      Fatal(CommitCalls(nb, branches, hash, a.amend))
        + (if a.push then LegacyPush.PushStepsAsWritten(None, Some(CommitTarget(nb, head))) else [])
  }

  /** The commit path handing over to the push that commits the squash merge as
      `squash`. */
  function SquashedCommitSteps(a: CommitArgs, words: nat, branches: seq<Branch>, head: Branch, hash: Hash, squash: Hash): seq<Step>
  {
    match CommitBranch(a, words, branches)
    case Err(_) => Fatal([Raise("Exception")])
    case Ok(nb) =>
      Fatal(CommitCalls(nb, branches, hash, a.amend))
        + (if a.push then LegacyPush.PushSteps(None, Some(CommitTarget(nb, head)), squash) else [])
  }

  /** `commit(...)`. */
  function Steps(a: CommitArgs, current: Option<Branch>, head: Branch, words: nat, branches: seq<Branch>,
                 logs: LogQuery -> string, hash: Hash): seq<Step>
  {
    if a.dummy then DummySteps(hash)
    else if a.discard > 0 || a.move.Some? then DiscardSteps(current, a, logs)
    else CommitSteps(a, words, branches, head, hash)
  }

  method Run(repo: Repo, a: CommitArgs, words: nat, branches: seq<Branch>, logs: LogQuery -> string,
             hash: Hash) returns (halt: Option<Op>)
    requires repo.Valid() && WsCommit.ListsBranches(branches, repo.State())
    modifies repo
    ensures repo.Valid()
    ensures Exec(old(repo.State()), Steps(a, HeadBranch(old(repo.State())), old(repo.current), words, branches, logs, hash))
            == Repository.Run(repo.State(), halt)
  {
    var current := repo.CurrentBranch();
    var plan := Steps(a, current, repo.current, words, branches, logs, hash);
    halt := repo.Execute(plan);
  }

  // ---------------------------------------------------------------------------
  // What `--dummy` does

  /** Once the dummy commit has run without a failure, master is checked out, holds
      the new commit, and the remote's master is the local one. */
  lemma DummyOutcome(s: RepoState, hash: Hash)
    requires ValidState(s)
    ensures var r := Exec(s, DummySteps(hash));
      r.halt.None? ==>
        && r.state.current == LegacyScm.Master && LegacyScm.Master in r.state.heads && LegacyScm.Master in r.state.remote
        && hash in r.state.heads[LegacyScm.Master] && r.state.remote[LegacyScm.Master] == r.state.heads[LegacyScm.Master]
  {
    var ops := [Checkout(LegacyScm.Master, None), Pull(PullRebase), Commit(hash, false)];
    var push := LegacyPush.PushStepsAsWritten(None, Some(LegacyScm.Master));
    ExecAppend(s, Fatal(ops), push);
    FatalIsApplyAll(s, ops);
    if ApplyAll(s, ops).Some? {
      var t := UpdateAndCommit(s, hash);
      assert HeadBranch(t) == Some(LegacyScm.Master);
      LegacyPush.MasterPush(t, None, hash);
      if Exec(t, push).halt.None? {
        assert hash in t.remote[LegacyScm.Master] + Unique(t.heads[LegacyScm.Master], t.remote[LegacyScm.Master]);
      }
    }
  }

  /** Checking out master, updating it and committing there. */
  lemma UpdateAndCommit(s: RepoState, hash: Hash) returns (t: RepoState)
    requires ValidState(s) && ApplyAll(s, [Checkout(LegacyScm.Master, None), Pull(PullRebase), Commit(hash, false)]).Some?
    ensures t == ApplyAll(s, [Checkout(LegacyScm.Master, None), Pull(PullRebase), Commit(hash, false)]).value
    ensures t.current == LegacyScm.Master && LegacyScm.Master in t.heads && hash in t.heads[LegacyScm.Master]
  {
    var a := LegacyPush.UpdateMasterCalls();
    assert [Checkout(LegacyScm.Master, None), Pull(PullRebase), Commit(hash, false)] == a + [Commit(hash, false)];
    ApplyAllAppend(s, a, [Commit(hash, false)]);
    LegacyPush.UpdateMaster(s);
    var u := ApplyAll(s, a).value;
    ApplyAllCons(u, Commit(hash, false), []);
    t := Apply(u, Commit(hash, false)).value;
  }

  // ---------------------------------------------------------------------------
  // What `--discard`/`--move` does

  /** `--discard` on a branch other than master with no more commits of its own than
      are discarded: master is checked out and the branch force-deleted; it succeeds
      exactly when both exist, and leaves every other branch as it was. */
  lemma DiscardDeletesBranch(s: RepoState, a: CommitArgs, logs: LogQuery -> string, b: Branch)
    requires ValidState(s) && a.discard > 0 && TargetBranch(HeadBranch(s), a) == Some(b) && b != LegacyScm.Master
    requires |WsCommit.Entries(logs(DiffMaster(b)))| <= a.discard
    ensures DiscardSteps(HeadBranch(s), a, logs) == Fatal([Checkout(LegacyScm.Master, None), DeleteBranch(b, true)])
    ensures var r := Exec(s, DiscardSteps(HeadBranch(s), a, logs));
      && (r.halt.None? <==> LegacyScm.Master in s.heads && b in s.heads)
      && (r.halt.None? ==> r.state.heads == s.heads - {b} && r.state.current == LegacyScm.Master && r.state.remote == s.remote)
  {
    var ops := [Checkout(LegacyScm.Master, None), DeleteBranch(b, true)];
    FatalIsApplyAll(s, ops);
    ApplyAllCons(s, ops[0], ops[1..]);
    ApplyCheckout(s, LegacyScm.Master);
    if LegacyScm.Master in s.heads {
      var t := Apply(s, ops[0]).value;
      ApplyAllCons(t, ops[1], []);
    }
  }

  /** `--discard N` on master, or on a branch with more than N commits of its own, whose
      last commit is the hash read from the log: the branch is checked out and loses
      exactly its last N commits; that succeeds exactly when it exists and has more
      than N commits. Master is never deleted. */
  lemma DiscardDropsCommits(s: RepoState, a: CommitArgs, logs: LogQuery -> string, b: Branch, h: Hash)
    requires ValidState(s) && a.discard > 0 && a.move.None? && TargetBranch(HeadBranch(s), a) == Some(b)
    requires var changes := WsCommit.Entries(logs(ChangesQuery(b, a.discard)));
      (b == LegacyScm.Master || |changes| > a.discard) && changes != [] && MatchHash(changes[0]) == Some(h)
    requires b in s.heads ==> WsCommit.Tip(s.heads[b], h)
    ensures DiscardSteps(HeadBranch(s), a, logs) == Fatal([Checkout(b, None), HardReset(h, a.discard)])
    ensures var r := Exec(s, DiscardSteps(HeadBranch(s), a, logs));
      && (r.halt.None? <==> b in s.heads && a.discard < |s.heads[b]|)
      && (r.halt.None? ==> r.state.heads == s.heads[b := s.heads[b][..|s.heads[b]| - a.discard]]
                           && r.state.current == b && r.state.remote == s.remote)
  {
    WsCommit.CheckoutReset(s, b, h, a.discard);
  }

  /** `--move B` when the hash read from the log is the last commit of the checked-out
      branch: B is created there, the branch is checked out again and loses that
      commit. It succeeds exactly when B is new and the commit has a parent. */
  lemma MoveLastCommit(s: RepoState, a: CommitArgs, logs: LogQuery -> string, b: Branch, h: Hash)
    requires ValidState(s) && a.discard == 0 && a.move.Some? && TargetBranch(HeadBranch(s), a) == Some(b)
    requires var changes := WsCommit.Entries(logs(CommitLogs(1))); changes != [] && MatchHash(changes[0]) == Some(h)
    requires s.heads != map[] && WsCommit.Tip(s.heads[s.current], h)
    ensures var r := Exec(s, DiscardSteps(HeadBranch(s), a, logs));
      var hs := s.heads[s.current];
      && (r.halt.None? <==> b !in s.heads && |hs| > 1)
      && (r.halt.None? ==> r.state.heads == s.heads[b := hs][s.current := hs[..|hs| - 1]]
                           && r.state.current == s.current && r.state.remote == s.remote)
  {
    MoveSteps(s, a, logs, b, h);
    assert MoveCalls(HeadBranch(s), b, h) == [CreateBranch(b, None), Checkout(s.current, None), HardReset(h, 1)];
    WsCommit.CreateAndReset(s, b, h);
  }

  /** `--move` in a repository without branches raises IndexError at
      `current_branch()`, before any call. */
  lemma MoveWithoutBranches(s: RepoState, a: CommitArgs, logs: LogQuery -> string, b: Branch, h: Hash)
    requires ValidState(s) && a.discard == 0 && a.move.Some? && TargetBranch(HeadBranch(s), a) == Some(b)
    requires var changes := WsCommit.Entries(logs(CommitLogs(1))); changes != [] && MatchHash(changes[0]) == Some(h)
    requires s.heads == map[]
    ensures Exec(s, DiscardSteps(HeadBranch(s), a, logs)) == Repository.Run(s, Some(Raise("IndexError")))
  {
    MoveSteps(s, a, logs, b, h);
    assert Fatal(MoveCalls(None, b, h)) == [Step(Raise("IndexError"), true)];
  }

  lemma MoveSteps(s: RepoState, a: CommitArgs, logs: LogQuery -> string, b: Branch, h: Hash)
    requires ValidState(s) && a.discard == 0 && a.move.Some? && TargetBranch(HeadBranch(s), a) == Some(b)
    requires var changes := WsCommit.Entries(logs(CommitLogs(1))); changes != [] && MatchHash(changes[0]) == Some(h)
    ensures DiscardSteps(HeadBranch(s), a, logs) == Fatal(MoveCalls(HeadBranch(s), b, h))
  {
  }

  /** A log with no entry makes `changes[0]` raise IndexError, and an entry with no
      readable hash is only reported: either way the repository is untouched. */
  lemma UnreadableLog(s: RepoState, a: CommitArgs, logs: LogQuery -> string, b: Branch)
    requires ValidState(s) && (a.discard > 0 || a.move.Some?) && TargetBranch(HeadBranch(s), a) == Some(b)
    requires var changes := WsCommit.Entries(logs(ChangesQuery(b, a.discard)));
      !(a.discard > 0 && |changes| <= a.discard && b != LegacyScm.Master)
    ensures var changes := WsCommit.Entries(logs(ChangesQuery(b, a.discard)));
      var r := Exec(s, DiscardSteps(HeadBranch(s), a, logs));
      && (changes == [] ==> r == Repository.Run(s, Some(Raise("IndexError"))))
      && (changes != [] && MatchHash(changes[0]).None? ==> r == Repository.Run(s, None))
  {
    var changes := WsCommit.Entries(logs(ChangesQuery(b, a.discard)));
    if changes == [] {
      assert Fatal([Raise("IndexError")]) == [Step(Raise("IndexError"), true)];
    }
  }

  // ---------------------------------------------------------------------------
  // What the commit path does

  /** The commit branch is a derived name exactly when the auto-branch test holds and
      the derived name is not empty; the name has no parent suffix and is no existing
      branch. Without the test the `--branch` option, if any, is used. */
  lemma AutoBranchChoice(a: CommitArgs, words: nat, branches: seq<Branch>)
    ensures var r := CommitBranch(a, words, branches);
      var n := BranchNaming.BranchName(a.msg, words, branches);
      && (r.Err? <==> AutoBranch(a, words, branches) && n.Err?)
      && (r.Err? ==> r.error == n.error)
      && (AutoBranch(a, words, branches) && n.Ok? ==>
            r == Ok(if n.value != "" then Some(n.value) else None) && n.value !in branches)
      && (!AutoBranch(a, words, branches) ==> r == Ok(if WsUpdate.Given(a.branch) then a.branch else None))
  {
  }

  /** The commits the commit goes on top of: those of an existing commit branch, else
      those of master, which a new branch starts from, or none in an empty repository. */
  function CommitBase(s: RepoState, b: Branch): seq<Hash>
    requires ValidState(s)
  {
    if b in s.heads then s.heads[b]
    else if s.heads == map[] then []
    else if LegacyScm.Master in s.heads then s.heads[LegacyScm.Master]
    else []
  }

  /** Getting onto the commit branch fails only when a new branch is to be made from
      a master that does not exist; otherwise the branch is checked out and holds the
      commits it will build on, and nothing else changes. */
  lemma MaterialiseOutcome(s: RepoState, b: Branch, branches: seq<Branch>)
    requires ValidState(s) && WsCommit.ListsBranches(branches, s)
    ensures ApplyAll(s, Materialise(b, branches)).Some? <==> b in s.heads || s.heads == map[] || LegacyScm.Master in s.heads
    ensures ApplyAll(s, Materialise(b, branches)).Some? ==>
      var t := ApplyAll(s, Materialise(b, branches)).value;
      t.current == b && t.remote == s.remote && t.heads == s.heads[b := CommitBase(s, b)]
  {
    var ops := Materialise(b, branches);
    if branches != [] {
      assert branches[0] in branches;
      if b in branches {
        if b != branches[0] {
          ApplyAllCons(s, ops[0], []);
        } else {
          assert s.heads[b := s.heads[b]] == s.heads;
        }
      } else {
        ApplyAllCons(s, ops[0], []);
      }
    } else {
      WsCommit.EmptyListing(branches, s);
      ApplyAllCons(s, ops[0], []);
    }
  }

  /** The commit branch can be got onto: it exists, the repository is empty, or master
      exists to create it from. */
  predicate Reachable(s: RepoState, nb: Option<Branch>)
  {
    nb.Some? ==> nb.value in s.heads || s.heads == map[] || LegacyScm.Master in s.heads
  }

  /** The commit path up to and including the commit: it succeeds exactly when the
      commit branch can be got onto and there is a commit to amend or no amend; then
      the commit branch is checked out and its commits are those it was built on with
      the last one replaced (amend) or the new commit added; the remote is untouched. */
  lemma CommitOutcome(s: RepoState, nb: Option<Branch>, branches: seq<Branch>, hash: Hash, amend: bool)
    requires ValidState(s) && WsCommit.ListsBranches(branches, s)
    ensures var on := CommitTarget(nb, s.current);
      var base := if nb.Some? then CommitBase(s, nb.value) else if s.heads == map[] then [] else s.heads[s.current];
      var r := ApplyAll(s, CommitCalls(nb, branches, hash, amend));
      && (r.Some? <==> Reachable(s, nb) && (!amend || base != []))
      && (r.Some? ==> && r.value.current == on && r.value.remote == s.remote && on in r.value.heads
                      && r.value.heads == s.heads[on := (if amend then base[..|base| - 1] else base) + [hash]])
  {
    if nb.Some? {
      CommitOnBranch(s, nb.value, branches, hash, amend);
    } else {
      assert CommitCalls(nb, branches, hash, amend) == [AddFiles, Commit(hash, amend)];
      WsCommit.AddAndCommit(s, if s.heads == map[] then [] else s.heads[s.current], hash, amend);
    }
  }

  /** The same for a commit branch named on the command line. */
  lemma CommitOnBranch(s: RepoState, b: Branch, branches: seq<Branch>, hash: Hash, amend: bool)
    requires ValidState(s) && WsCommit.ListsBranches(branches, s)
    ensures var base := CommitBase(s, b);
      var r := ApplyAll(s, Materialise(b, branches) + [AddFiles, Commit(hash, amend)]);
      && (r.Some? <==> (b in s.heads || s.heads == map[] || LegacyScm.Master in s.heads) && (!amend || base != []))
      && (r.Some? ==> && r.value.current == b && r.value.remote == s.remote
                      && r.value.heads == s.heads[b := (if amend then base[..|base| - 1] else base) + [hash]])
  {
    var m := Materialise(b, branches);
    var base := CommitBase(s, b);
    ApplyAllAppend(s, m, [AddFiles, Commit(hash, amend)]);
    MaterialiseOutcome(s, b, branches);
    if ApplyAll(s, m).Some? {
      var t := ApplyAll(s, m).value;
      var x := (if amend && base != [] then base[..|base| - 1] else base) + [hash];
      assert t.heads[b := x] == s.heads[b := x];
      WsCommit.AddAndCommit(t, base, hash, amend);
    }
  }

  /** `--push` after a commit on a branch other than master, with the squash merge
      committed: once the run has ended without a failure, master is checked out and
      pushed with the squash commit, and the commit branch is gone. */
  lemma CommitThenPush(s: RepoState, a: CommitArgs, words: nat, branches: seq<Branch>, hash: Hash, squash: Hash, nb: Option<Branch>)
    requires ValidState(s) && WsCommit.ListsBranches(branches, s) && a.push
    requires CommitBranch(a, words, branches) == Ok(nb) && CommitTarget(nb, s.current) != LegacyScm.Master
    ensures var r := Exec(s, SquashedCommitSteps(a, words, branches, s.current, hash, squash));
      r.halt.None? ==>
        && r.state.current == LegacyScm.Master && CommitTarget(nb, s.current) !in r.state.heads
        && LegacyScm.Master in r.state.heads && LegacyScm.Master in r.state.remote
        && r.state.remote[LegacyScm.Master] == r.state.heads[LegacyScm.Master]
        && squash in r.state.heads[LegacyScm.Master]
  {
    var on := CommitTarget(nb, s.current);
    var c := CommitCalls(nb, branches, hash, a.amend);
    var push := LegacyPush.PushSteps(None, Some(on), squash);
    assert SquashedCommitSteps(a, words, branches, s.current, hash, squash) == Fatal(c) + push;
    ExecAppend(s, Fatal(c), push);
    FatalIsApplyAll(s, c);
    if ApplyAll(s, c).Some? {
      CommitOutcome(s, nb, branches, hash, a.amend);
      var t := ApplyAll(s, c).value;
      LegacyPush.PushOutcome(t, None, squash, on);
    }
  }

  /** `--push` after a commit on a branch other than master, as written: once the run
      has ended without a failure, master is checked out, updated and pushed, the
      commit branch is gone, and every other branch is as it was. Master is only the
      updated master, so a new commit that master and the remote lacked is lost. */
  lemma CommitThenPushAsWritten(s: RepoState, a: CommitArgs, words: nat, branches: seq<Branch>, hash: Hash, nb: Option<Branch>)
    requires ValidState(s) && WsCommit.ListsBranches(branches, s) && a.push
    requires CommitBranch(a, words, branches) == Ok(nb) && CommitTarget(nb, s.current) != LegacyScm.Master
    ensures var r := Exec(s, CommitSteps(a, words, branches, s.current, hash));
      var on := CommitTarget(nb, s.current);
      r.halt.None? ==>
        && LegacyScm.Master in s.heads && LegacyScm.Master in s.remote
        && r.state.current == LegacyScm.Master
        && r.state.heads == s.heads[LegacyScm.Master := LegacyPush.Pulled(s)] - {on}
        && r.state.remote == s.remote[LegacyScm.Master := LegacyPush.Pulled(s)]
        && (hash !in s.heads[LegacyScm.Master] && hash !in s.remote[LegacyScm.Master] ==> hash !in r.state.heads[LegacyScm.Master])
  {
    var on := CommitTarget(nb, s.current);
    var c := CommitCalls(nb, branches, hash, a.amend);
    var push := LegacyPush.PushStepsAsWritten(None, Some(on));
    assert CommitSteps(a, words, branches, s.current, hash) == Fatal(c) + push;
    ExecAppend(s, Fatal(c), push);
    FatalIsApplyAll(s, c);
    if ApplyAll(s, c).Some? {
      CommitOutcome(s, nb, branches, hash, a.amend);
      var t := ApplyAll(s, c).value;
      LegacyPush.PushOutcomeAsWritten(t, None, on);
      if Exec(t, push).halt.None? {
        OtherBranchesKept(s, t, on);
      }
    }
  }

  /** A commit on a branch other than master changes neither master nor the remote, so
      the push that follows ends on the same branches as from the state before it. */
  lemma OtherBranchesKept(s: RepoState, t: RepoState, on: Branch)
    requires on != LegacyScm.Master && LegacyScm.Master in t.heads && LegacyScm.Master in t.remote
    requires t.remote == s.remote && on in t.heads && t.heads - {on} == s.heads - {on}
    ensures LegacyScm.Master in s.heads && LegacyScm.Master in s.remote
    ensures LegacyPush.Pulled(t) == LegacyPush.Pulled(s)
    ensures t.heads[LegacyScm.Master := LegacyPush.Pulled(t)] - {on} == s.heads[LegacyScm.Master := LegacyPush.Pulled(s)] - {on}
  {
    assert (t.heads - {on})[LegacyScm.Master] == t.heads[LegacyScm.Master];
    assert (s.heads - {on})[LegacyScm.Master] == s.heads[LegacyScm.Master];
    var x := t.heads[LegacyScm.Master := LegacyPush.Pulled(t)] - {on};
    var y := s.heads[LegacyScm.Master := LegacyPush.Pulled(s)] - {on};
    assert x.Keys == y.Keys by {
      assert x.Keys == (t.heads - {on}).Keys;
      assert y.Keys == (s.heads - {on}).Keys;
    }
    forall k | k in x ensures x[k] == y[k] {
      if k != LegacyScm.Master {
        assert (t.heads - {on})[k] == (s.heads - {on})[k];
      }
    }
  }
}
