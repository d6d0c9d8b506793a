// The SCM adapter of the older generation (src/workspace/scm.py), which also drives
// svn checkouts: log and branch parsers, product names and paths, the svn revision
// range and the `commit_logs` command line.
module LegacyScm {
  import opened Wrappers
  import opened Text
  import CommitLog
  import BranchList
  import Repository

  /** The branch every older-generation flow is rooted at. */
  const Master: Repository.Branch := "master"

  // ---- logs ----

  /** `extract_commit_msgs(output, is_git)`: git messages are the indented lines, with
      the four-space indent removed; svn messages are the lines that are not headers. */
  method ExtractCommitMsgs(output: string, isGit: bool) returns (msgs: seq<string>)
    ensures msgs == CommitLog.Messages(output, if isGit then CommitLog.Indented else CommitLog.NotSvnHeader, isGit)
  {
    msgs := CommitLog.ExtractCommitMsgs(output, if isGit then CommitLog.Indented else CommitLog.NotSvnHeader, isGit);
  }

  /** The leading digits of `d + rest`, when `rest` does not start with a digit. */
  lemma {:induction false} DigitRunOfPrefix(d: string, rest: string)
    requires AllDigits(d) && (rest == [] || !IsDigit(rest[0]))
    ensures CommitLog.DigitRun(d + rest) == |d|
    decreases |d|
  {
    if |d| > 1 {
      assert (d + rest)[1..] == d[1..] + rest;
      DigitRunOfPrefix(d[1..], rest);
    } else {
      assert (d + rest)[1..] == rest;
    }
  }

  /** A revision line of `svn log` is a header: "r", the revision number, a space, the
      author, date and size fields, and " line" or " lines". */
  lemma RevisionLineIsHeader(rev: nat, fields: string, plural: bool)
    ensures CommitLog.SvnHeader("r" + NatToString(rev) + " " + fields + (if plural then " lines" else " line"))
  {
    var digits := NatToString(rev);
    var suffix := if plural then " lines" else " line";
    var head := "r" + digits + " ";
    var s := head + (fields + suffix);
    assert s == "r" + digits + " " + fields + suffix;
    assert s[1..] == digits + (" " + fields + suffix);
    DigitRunOfPrefix(digits, " " + fields + suffix);
    assert s[1 + |digits|] == head[1 + |digits|] == ' ';
    EndsWithSize(head + fields, plural, 2 + |digits|);
    assert s == (head + fields) + suffix;
  }

  lemma EndsWithSize(pre: string, plural: bool, from: nat)
    requires from <= |pre|
    ensures CommitLog.EndsWithLines(pre + (if plural then " lines" else " line"), from)
  {
    var suffix := if plural then " lines" else " line";
    var s := pre + suffix;
    assert s[|s| - |suffix|..] == suffix;
    assert s[|s| - |suffix|] == ' ';
    if plural {
      assert s[|s| - 5..] == suffix[1..];
    } else {
      assert s[|s| - 4..] == suffix[1..];
    }
  }

  /** A message line of `svn log` is not a header, even one that starts like a
      revision line. */
  lemma SvnMessageIsNotHeader()
    ensures !CommitLog.SvnHeader("r42 fix")
  {
    var s := "r42 fix";
    assert s[1..] == "42" + " fix";
    DigitRunOfPrefix("42", " fix");
    assert !EndsWith(s, "line") && !EndsWith(s, "lines");
  }

  // ---- branches ----

  /** `all_branches()`: the listing, starred branch first. */
  method AllBranches(output: string) returns (branches: seq<string>)
    ensures branches == (if output == "" then [] else BranchList.Listing(BranchList.Entries(Split(output, "\n"), true)))
  {
    branches := BranchList.AllBranches(output, true);
  }

  /** `current_branch()`: element 0 of the listing; an empty listing is an IndexError. */
  function CurrentBranch(output: string): (r: Result<string>)
    ensures output == "" ==> r.Err?
    ensures output != "" ==> match BranchList.CurrentBranch(BranchList.Entries(Split(output, "\n"), true))
                             case Some(b) => r == Ok(b)
                             case None => r.Err?
  {
    if output == "" then Err("IndexError")
    else match BranchList.CurrentBranch(BranchList.Entries(Split(output, "\n"), true))
      case Some(b) => Ok(b)
      case None => Err("IndexError")
  }

  // ---- products ----

  /** `product_name(url)`: a `.git` or `_trunk` suffix removed, then the last path
      component. Unlike the current generation, slashes are not stripped first. */
  function ProductName(url: string): (r: string)
    ensures '/' !in r
  {
    Basename(if EndsWith(url, ".git") then url[..|url| - 4]
             else if EndsWith(url, "_trunk") then url[..|url| - 6]
             else url)
  }

  /** `product_name_for_repo(repo)`: the directory name with every `_trunk` removed. */
  function ProductNameForRepo(repo: string): (r: string)
    ensures !Contains(Basename(repo), "_trunk") ==> r == Basename(repo)
  {
    ReplaceAll(Basename(repo), "_trunk", "")
  }

  /** `product_checkout_path(url, workspace_path)`: the product's directory in the
      workspace (the current directory when none is given). */
  function ProductCheckoutPath(url: string, workspacePath: string, cwd: string): (r: string)
    ensures workspacePath != "" && !EndsWith(workspacePath, "/") ==> r == workspacePath + "/" + ProductName(url)
  {
    var name := ProductName(url);
    assert name == [] || name[0] != '/';
    PathJoin(if workspacePath != "" then workspacePath else cwd, name)
  }

  lemma BasenameAfterSlash(dir: string, name: string)
    requires '/' !in name
    ensures Basename(dir + "/" + name) == name
  {
    var p := dir + "/" + name;
    var k := RFind(p, '/');
    assert p[|dir|] == '/';
    assert forall j :: |dir| < j < |p| ==> p[j] == name[j - |dir| - 1];
    assert k == |dir|;
  }

  /** A checkout's directory maps back to the product's name, as long as the name does
      not itself contain `_trunk`. */
  lemma NameForCheckout(url: string, workspacePath: string, cwd: string)
    requires workspacePath != "" && !EndsWith(workspacePath, "/")
    requires !Contains(ProductName(url), "_trunk")
    ensures ProductNameForRepo(ProductCheckoutPath(url, workspacePath, cwd)) == ProductName(url)
  {
    BasenameAfterSlash(workspacePath, ProductName(url));
  }

  // ---- svn revision range ----

  /** The outcome of `svn_revision_range`: no output (the function returns None), a
      parse failure (`(None, None)`), or the range. */
  datatype RevisionRange = NoOutput | Unparsed | Range(from: nat, head: nat)

  /** `re.match('r(\d+) ', line)`: the revision number at the start of the line. */
  function RevisionAt(line: string): (r: Option<nat>)
    ensures r.Some? ==> |line| > 2 && line[0] == 'r'
  {
    if |line| > 0 && line[0] == 'r' then
      var d := CommitLog.DigitRun(line[1..]);
      if d > 0 && 1 + d < |line| && line[1 + d] == ' ' then
        var ds := line[1..1 + d];
        assert forall i :: 0 <= i < |ds| ==> IsDigit(ds[i]);
        Some(DigitsValue(ds))
      else None
    else None
  }

  /** The last line at or before index `i` that carries a revision. */
  function LastRevisionLine(lines: seq<string>, i: nat): (k: Option<nat>)
    requires i < |lines|
    ensures k.Some? ==> k.value <= i && RevisionAt(lines[k.value]).Some?
    ensures k.Some? ==> forall j :: k.value < j <= i ==> RevisionAt(lines[j]).None?
    ensures k.None? ==> forall j :: 0 <= j <= i ==> RevisionAt(lines[j]).None?
  {
    if RevisionAt(lines[i]).Some? then Some(i) else if i == 0 then None else LastRevisionLine(lines, i - 1)
  }

  /** The head revision is on the second line; the first revision is found scanning
      back from the end. */
  function RangeOfLines(lines: seq<string>): (r: RevisionRange)
    ensures r.Range? ==> |lines| >= 2 && RevisionAt(lines[1]) == Some(r.head)
    ensures r.Range? ==> exists k :: 1 <= k < |lines| && RevisionAt(lines[k]) == Some(r.from)
                                    && forall j :: k < j < |lines| ==> RevisionAt(lines[j]).None?
    ensures r.Unparsed? <==> |lines| < 2 || RevisionAt(lines[1]).None?
  {
    if |lines| < 2 || RevisionAt(lines[1]).None? then Unparsed
    else
      var k := LastRevisionLine(lines, |lines| - 1).value;
      Range(RevisionAt(lines[k]).value, RevisionAt(lines[1]).value)
  }

  function SvnRange(output: string): RevisionRange
  {
    if output == "" then NoOutput else RangeOfLines(Split(output, "\n"))
  }

  /** The backward scan of `svn_revision_range`. */
  method ScanBack(lines: seq<string>) returns (from: nat)
    requires 2 <= |lines| && RevisionAt(lines[1]).Some?
    ensures from == RangeOfLines(lines).from
  {
    var i := |lines| - 1;
    while true
      invariant 1 <= i < |lines|
      invariant forall j :: i < j < |lines| ==> RevisionAt(lines[j]).None?
      decreases i
    {
      var m := RevisionAt(lines[i]);
      if m.Some? {
        from := m.value;
        assert LastRevisionLine(lines, |lines| - 1) == Some(i) by {
          var k := LastRevisionLine(lines, |lines| - 1);
          assert k.Some? && k.value >= i;
        }
        return;
      }
      i := i - 1;
    }
  }

  /** `svn_revision_range(repo, num_commits)` on the output of `svn log`. */
  method SvnRevisionRange(output: string) returns (r: RevisionRange)
    ensures r == SvnRange(output)
  {
    if output == "" {
      return NoOutput;
    }
    var lines := Split(output, "\n");
    if |lines| < 2 {
      return Unparsed;
    }
    var head := RevisionAt(lines[1]);
    if head.None? {
      return Unparsed;
    }
    var from := ScanBack(lines);
    r := Range(from, head.value);
  }

  // ---- commands ----

  /** `commit_logs(limit, show, patch, file)`: the git or svn command; a pager is added
      for svn when showing more than three entries (or all of them). `limit` 0 is no
      limit, `file` "" no file. */
  function CommitLogsArgs(isGit: bool, limit: nat, show: bool, patch: bool, file: string, pagerEnv: string): (r: seq<string>)
    ensures |r| >= 2 && r[..2] == (if isGit then ["git", "log"] else ["svn", "log"])
    ensures var paged := !isGit && show && (limit == 0 || limit > 3);
            |r| == 2 + (if limit > 0 then (if isGit then 1 else 2) else 0) + (if patch then 1 else 0)
                   + (if file != "" then 1 else 0) + (if paged then 2 else 0)
    ensures limit > 0 && isGit ==> r[2] == "-" + NatToString(limit)
    ensures limit > 0 && !isGit ==> r[2..4] == ["-l", NatToString(limit)]
    ensures !isGit && show && (limit == 0 || limit > 3) ==> r[|r| - 2..] == ["|", if pagerEnv != "" then pagerEnv else "less"]
  {
    if isGit then
      ["git", "log"] + (if limit > 0 then ["-" + NatToString(limit)] else [])
      + (if patch then ["-p"] else []) + (if file != "" then [file] else [])
    else
      ["svn", "log"] + (if limit > 0 then ["-l", NatToString(limit)] else [])
      + (if patch then ["--diff"] else []) + (if file != "" then [file] else [])
      + (if show && (limit == 0 || limit > 3) then ["|", if pagerEnv != "" then pagerEnv else "less"] else [])
  }

  /** `update_repo()`: git-svn and git repositories rebase onto their remote; svn
      checkouts run `svn update`. */
  function UpdateMode(isGitSvn: bool, isGit: bool): (m: Repository.PullMode)
    ensures m == Repository.SvnUpdate <==> !isGitSvn && !isGit
  {
    if isGitSvn || isGit then Repository.PullRebase else Repository.SvnUpdate
  }
}
