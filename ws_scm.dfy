// The SCM adapter of the current generation (workspace/scm.py): output parsers,
// remote selection, branch-name helpers and the argument lists of git commands.
module WsScm {
  import opened Wrappers
  import opened Text
  import CommitLog
  import BranchList

  const DefaultRemoteName := "origin"
  const UpstreamRemoteName := "upstream"

  // ---- remotes ----

  /** The non-empty lines of `git remote`, each stripped. */
  function RemoteLines(lines: seq<string>): (r: seq<string>)
    ensures |r| <= |lines|
  {
    if lines == [] then []
    else (if lines[0] != "" then [Strip(lines[0])] else []) + RemoteLines(lines[1..])
  }

  /** A remote is listed exactly when it is a non-empty line, stripped. */
  lemma {:induction false} RemoteLinesMembers(lines: seq<string>, x: string)
    ensures x in RemoteLines(lines) <==> exists l :: l in lines && l != "" && x == Strip(l)
  {
    if lines != [] {
      RemoteLinesMembers(lines[1..], x);
      assert forall l :: l in lines <==> l == lines[0] || l in lines[1..];
    }
  }

  /** `_all_remotes()`: two or more remotes must include both `origin` and `upstream`,
      otherwise the command exits with status 1. */
  function RemoteNames(output: string): (r: Result<seq<string>>)
    ensures r.Ok? && |r.value| >= 2 ==> DefaultRemoteName in r.value && UpstreamRemoteName in r.value
    ensures r.Err? ==> r.error == "exit 1"
  {
    var remotes := if output == "" then [] else RemoteLines(Split(output, "\n"));
    if |remotes| >= 2 && !(DefaultRemoteName in remotes && UpstreamRemoteName in remotes) then Err("exit 1")
    else Ok(remotes)
  }

  /** `default_remote(remotes)`: `origin` among several remotes, else the only one;
      with no remote the list index fails. */
  function DefaultRemote(remotes: seq<string>): (r: Result<string>)
    ensures r.Err? <==> remotes == []
    ensures |remotes| > 1 ==> r == Ok(DefaultRemoteName)
    ensures |remotes| == 1 ==> r == Ok(remotes[0])
  {
    if |remotes| > 1 then Ok(DefaultRemoteName)
    else if remotes == [] then Err("IndexError")
    else Ok(remotes[0])
  }

  /** `upstream_remote(remotes)`: `upstream` among several remotes, else the only one. */
  function UpstreamRemote(remotes: seq<string>): (r: Option<string>)
    ensures r.None? <==> remotes == []
    ensures |remotes| > 1 ==> r == Some(UpstreamRemoteName)
    ensures |remotes| == 1 ==> r == Some(remotes[0])
  {
    if remotes == [] then None
    else if |remotes| > 1 then Some(UpstreamRemoteName)
    else Some(remotes[0])
  }

  function Without(s: seq<string>, x: string): (r: seq<string>)
    ensures forall y :: y in r <==> y in s && y != x
  {
    if s == [] then [] else (if s[0] == x then [] else [s[0]]) + Without(s[1..], x)
  }

  /** `all_remotes()`: with several remotes the default comes first, then the others
      in ascending order without repeats; one or no remote is returned as it is. */
  function AllRemotes(remotes: seq<string>): (r: seq<string>)
    ensures |remotes| <= 1 ==> r == remotes
    ensures |remotes| > 1 ==> |r| >= 1 && r[0] == DefaultRemoteName
    ensures |remotes| > 1 ==> StrictlySorted(r[1..]) && DefaultRemoteName !in r[1..]
    ensures |remotes| > 1 ==> forall x :: x in r[1..] <==> x in remotes && x != DefaultRemoteName
  {
    if |remotes| > 1 then
      var default := DefaultRemote(remotes).value;
      [default] + SortedUnique(Without(remotes, default))
    else remotes
  }

  // ---- branches ----

  /** `all_branches()` (not verbose): the listing, current branch first. */
  method AllBranches(output: string) returns (branches: seq<string>)
    ensures branches == (if output == "" then [] else BranchList.Listing(BranchList.Entries(Split(output, "\n"), false)))
  {
    branches := BranchList.AllBranches(output, false);
  }

  /** `current_branch()`: the starred branch of the listing, if any. */
  function CurrentBranch(output: string): (r: Option<string>)
    ensures output == "" ==> r == None
  {
    if output == "" then None else BranchList.CurrentBranch(BranchList.Entries(Split(output, "\n"), false))
  }

  /** `master_branch()`: `trunk` exactly when such a branch exists. */
  function MasterBranch(branches: seq<string>): (r: string)
    ensures r == "trunk" <==> "trunk" in branches
    ensures r != "trunk" ==> r == "master"
  {
    if "trunk" in branches then "trunk" else "master"
  }

  /** `parent_branch(branch)`: the text after the last occurrence of the indicator. */
  function ParentBranch(branch: string, indicator: string): (r: Option<string>)
    requires |indicator| > 0
    ensures r.None? <==> !Contains(branch, indicator)
    ensures r.Some? ==> exists i :: OccursAt(branch, indicator, i) && r.value == branch[i + |indicator|..]
    ensures r.Some? ==> !Contains(r.value, indicator)
  {
    ContainsIff(branch, indicator);
    match FindLast(branch, indicator)
    case None => None
    case Some(i) =>
      var p := branch[i + |indicator|..];
      ContainsIff(p, indicator);
      assert forall k :: OccursAt(p, indicator, k) ==> OccursAt(branch, indicator, i + |indicator| + k) by {
        forall k | OccursAt(p, indicator, k) ensures OccursAt(branch, indicator, i + |indicator| + k) {
          assert branch[i + |indicator| + k..i + |indicator| + k + |indicator|] == p[k..k + |indicator|];
        }
      }
      Some(p)
  }

  /** A parent branch has no parent of its own: the parent's update never rebases. */
  lemma ParentHasNoParent(branch: string, indicator: string)
    requires |indicator| > 0 && ParentBranch(branch, indicator).Some?
    ensures ParentBranch(ParentBranch(branch, indicator).value, indicator).None?
  {
  }

  /** A child branch named `child + indicator + parent` has that parent when the parent
      part does not contain the (one-character) indicator. */
  lemma ParentOfChildName(child: string, indicator: string, parent: string)
    requires |indicator| == 1 && !Contains(parent, indicator)
    ensures ParentBranch(child + indicator + parent, indicator) == Some(parent)
  {
    var b := child + indicator + parent;
    var i := |child|;
    assert b[i..i + |indicator|] == indicator;
    assert OccursAt(b, indicator, i);
    ContainsIff(b, indicator);
    var j := FindLast(b, indicator).value;
    if j > i {
      SliceOfSecond(child + indicator, parent, j, |indicator|);
      assert OccursAt(parent, indicator, j - i - |indicator|);
      ContainsIff(parent, indicator);
      assert false;
    }
  }

  // ---- checkout ----

  /** The `-B` name `checkout_branch` adds for a `remote/name` branch. */
  function CheckoutResetName(branch: string): (r: Option<string>)
    ensures r.Some? <==> '/' in branch && branch[|branch| - 1] != '/'
    ensures r.Some? ==> '/' !in r.value && r.value != "" && EndsWith(branch, "/" + r.value)
  {
    if '/' in branch && Basename(branch) != "" then
      var n := Basename(branch);
      assert branch[|branch| - |n| - 1] == '/' by {
        var k := RFind(branch, '/');
        if k < 0 { assert false; }
      }
      assert branch[|branch| - |n| - 1..] == "/" + n;
      Some(n)
    else
      None
  }

  /** `git checkout <branch> [-B <name>]`. */
  function CheckoutArgs(branch: string): (r: seq<string>)
    ensures |r| >= 3 && r[..3] == ["git", "checkout", branch]
    ensures CheckoutResetName(branch).None? ==> |r| == 3
    ensures CheckoutResetName(branch).Some? ==> r[3..] == ["-B", CheckoutResetName(branch).value]
  {
    ["git", "checkout", branch] + (match CheckoutResetName(branch) case Some(n) => ["-B", n] case None => [])
  }

  // ---- commands ----

  /** The message `merge_branch` passes with a strategy. */
  function MergeMessage(branch: string, current: Option<string>, strategy: string): string
  {
    "Merge branch " + branch + " into " + (match current case Some(c) => c case None => "None")
    + " (using strategy " + strategy + ")"
  }

  /** `merge_branch(branch, squash, strategy)`; a strategy adds a message naming the
      checked-out branch (`None` when there is none). */
  function MergeArgs(branch: string, squash: bool, strategy: string, current: Option<string>): (r: seq<string>)
    ensures |r| == 3 + (if squash then 1 else 0) + (if strategy != "" then 2 else 0)
    ensures r[..3] == ["git", "merge", branch]
    ensures squash <==> |r| > 3 && r[3] == "--squash"
    ensures strategy != "" ==> r[|r| - 2..] == ["--strategy=" + strategy, "-m " + MergeMessage(branch, current, strategy)]
  {
    var strategyArg := "--strategy=" + strategy;
    assert strategyArg[3] != "--squash"[3];
    ["git", "merge", branch]
    + (if squash then ["--squash"] else [])
    + (if strategy != "" then [strategyArg, "-m " + MergeMessage(branch, current, strategy)] else [])
  }

  /** `local_commit(msg, amend, empty)`. */
  function LocalCommitArgs(msg: string, amend: bool, empty: bool): (r: seq<string>)
    ensures var flags := (if amend then 1 else 0) + (if empty then 1 else 0);
            |r| == 2 + flags + (if msg != "" then 2 else 0)
            && r[..2] == ["git", "commit"]
            && ("--amend" in r[2..2 + flags] <==> amend)
            && ("--allow-empty" in r[2..2 + flags] <==> empty)
            && (msg != "" ==> r[2 + flags..] == ["-m", msg])
  {
    var flags := (if amend then ["--amend"] else []) + (if empty then ["--allow-empty"] else []);
    var r := ["git", "commit"] + flags + (if msg != "" then ["-m", msg] else []);
    assert r[2..2 + |flags|] == flags;
    r
  }

  /** `remove_branch(branch, remote, force)`: the local deletion, then the deletion on
      the default remote when asked. */
  function RemoveBranchCommands(branch: string, remote: bool, force: bool, defaultRemote: string): (r: seq<seq<string>>)
    ensures |r| == (if remote then 2 else 1)
    ensures r[0] == ["git", "branch", if force then "-D" else "-d", branch]
    ensures remote ==> r[1] == ["git", "push", defaultRemote, "--delete", branch]
  {
    [["git", "branch", if force then "-D" else "-d", branch]]
    + (if remote then [["git", "push", defaultRemote, "--delete", branch]] else [])
  }

  /** `push_repo(force, remote, branch)` as written: an untracked branch concatenates
      `--set-upstream ` with `remote`, which fails when no remote was passed. */
  function PushCommandAsWritten(force: bool, tracked: bool, remote: Option<string>, branch: string): (r: Result<string>)
    ensures r.Err? <==> !tracked && remote.None?
  {
    var opts := if force then ["--force"] else [];
    if !tracked && remote.None? then Err("TypeError")
    else
      var opts := opts + (if !tracked then ["--set-upstream " + remote.value]
                          else if remote.Some? && remote.value != "" then [remote.value] else []);
      Ok("git push " + Join(" ", opts + (if branch != "" then [branch] else [])))
  }

  /** `Push.run` calls `push_repo(force=...)` without a remote, so the push of a branch
      without a tracking branch raises instead of setting the upstream. */
  lemma PushUntrackedRaises(force: bool, branch: string)
    ensures PushCommandAsWritten(force, false, None, branch) == Err("TypeError")
  {
  }

  /** `push_repo` as intended: a missing remote means the default remote. */
  function PushCommand(force: bool, tracked: bool, remote: Option<string>, branch: string, defaultRemote: string): (r: string)
    ensures !tracked ==> r == PushCommandAsWritten(force, tracked, Some(if remote.Some? then remote.value else defaultRemote), branch).value
  {
    var target := if remote.Some? then remote.value else defaultRemote;
    var opts := (if force then ["--force"] else [])
                + (if !tracked then ["--set-upstream " + target]
                   else if remote.Some? && remote.value != "" then [remote.value] else []);
    "git push " + Join(" ", opts + (if branch != "" then [branch] else []))
  }

  /** Where the written code works, the intended one issues the same command. */
  lemma PushCommandAgrees(force: bool, tracked: bool, remote: Option<string>, branch: string, defaultRemote: string)
    requires PushCommandAsWritten(force, tracked, remote, branch).Ok?
    ensures PushCommand(force, tracked, remote, branch, defaultRemote) == PushCommandAsWritten(force, tracked, remote, branch).value
  {
  }

  // ---- products ----

  /** `product_name(url)`: slashes stripped from both ends, then a `.git`, `_trunk` or
      `/trunk` suffix removed, then the last path component. */
  function ProductName(url: string): (r: string)
    ensures '/' !in r
  {
    Basename(TrimSuffix(StripChars(url, {'/'})))
  }

  /** The repository suffix `product_name` removes: `.git`, else `_trunk` or `/trunk`. */
  function TrimSuffix(u: string): string
  {
    if EndsWith(u, ".git") then u[..|u| - 4]
    else if EndsWith(u, "_trunk") || EndsWith(u, "/trunk") then u[..|u| - 6]
    else u
  }

  lemma TrimSuffixOf(x: string, suffix: string)
    requires suffix == ".git" || suffix == "_trunk" || suffix == "/trunk"
    ensures TrimSuffix(x + suffix) == x
  {
    var u := x + suffix;
    assert u[..|x|] == x;
    assert EndsWith(u, suffix);
    if suffix != ".git" {
      assert u[|u| - 1] == 'k';
    }
  }

  /** The basename of a path ending in `/name` (or equal to `name`) is `name`. */
  lemma BasenameOfSuffix(p: string, name: string)
    requires '/' !in name && EndsWith(p, name)
    requires |p| == |name| || p[|p| - |name| - 1] == '/'
    ensures Basename(p) == name
  {
    var k := RFind(p, '/');
    var m := |p| - |name| - 1;
    assert p[m + 1..] == name;
    assert forall j :: m < j < |p| ==> p[j] != '/' by {
      forall j | m < j < |p| ensures p[j] != '/' {
        assert p[j] == p[m + 1..][j - m - 1];
      }
    }
    if |p| == |name| {
      assert k == -1;
    } else {
      assert p[m] == '/';
      assert k == m;
    }
  }

  /** Stripping slashes from a string that ends in another character removes only a
      run of leading slashes. */
  lemma StripSlashes(s: string) returns (d: nat)
    requires s != [] && s[|s| - 1] != '/'
    ensures d < |s| && StripChars(s, {'/'}) == s[d..]
    ensures forall i :: 0 <= i < d ==> s[i] == '/'
  {
    var l := LStrip(s, {'/'});
    d := |s| - |l|;
    assert l == s[d..];
    assert |l| > 0 by {
      assert s[|s| - 1] !in {'/'};
    }
    assert l[|l| - 1] == s[|s| - 1];
    assert RStrip(l, {'/'}) == l;
    assert forall i :: 0 <= i < d ==> s[i] == '/' by {
      forall i | 0 <= i < d ensures s[i] == '/' {
        assert s[i] in {'/'};
      }
    }
  }

  /** What is left of `pre + name + suffix` after dropping `d` leading characters of
      `pre` (a path ending in `/`) has the product name `name`. */
  lemma NameAfterDrop(pre: string, name: string, suffix: string, d: nat)
    requires suffix == ".git" || suffix == "_trunk" || suffix == "/trunk"
    requires name != "" && '/' !in name
    requires d <= |pre| && pre != "" && pre[|pre| - 1] == '/'
    ensures Basename(TrimSuffix((pre + name + suffix)[d..])) == name
  {
    var head := pre[d..];
    assert (pre + name + suffix)[d..] == head + name + suffix;
    TrimSuffixOf(head + name, suffix);
    var cut := head + name;
    if d < |pre| {
      assert cut[|cut| - |name| - 1] == pre[|pre| - 1];
    }
    BasenameOfSuffix(cut, name);
  }

  /** The name of a repository URL `base/name` followed by `.git`, `_trunk` or `/trunk`. */
  lemma ProductNameOfUrl(base: string, name: string, suffix: string)
    requires suffix == ".git" || suffix == "_trunk" || suffix == "/trunk"
    requires name != "" && '/' !in name
    ensures ProductName(base + "/" + name + suffix) == name
  {
    var pre := base + "/";
    var s := pre + name + suffix;
    assert s[|s| - 1] == suffix[|suffix| - 1];
    var d := StripSlashes(s);
    assert s[|pre|] == name[0];
    NameAfterDrop(pre, name, suffix, d);
  }

  /** `product_path(name, workspace_dir)`; an empty directory means the workspace. */
  function ProductPath(name: string, workspaceDir: string, workspace: string): (r: string)
    ensures !StartsWith(name, "/") && workspaceDir != "" && !EndsWith(workspaceDir, "/") ==> r == workspaceDir + "/" + name
    ensures !StartsWith(name, "/") && workspaceDir == "" && workspace != "" && !EndsWith(workspace, "/") ==> r == workspace + "/" + name
  {
    PathJoin(if workspaceDir != "" then workspaceDir else workspace, name)
  }

  /** `product_checkout_path(url, workspace_dir)`. */
  function ProductCheckoutPath(url: string, workspaceDir: string, workspace: string): (r: string)
    ensures workspaceDir != "" && !EndsWith(workspaceDir, "/") ==> r == workspaceDir + "/" + ProductName(url)
  {
    var name := ProductName(url);
    assert name == [] || name[0] != '/';
    ProductPath(name, workspaceDir, workspace)
  }

  // ---- logs ----

  /** `extract_commit_msgs(output, is_git)`: the indented lines are message lines; git
      log output also loses its four-space indent. */
  method ExtractCommitMsgs(output: string, isGit: bool) returns (msgs: seq<string>)
    ensures msgs == CommitLog.Messages(output, CommitLog.Indented, isGit)
  {
    msgs := CommitLog.ExtractCommitMsgs(output, CommitLog.Indented, isGit);
  }
}
