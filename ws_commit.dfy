// `wst commit` of the current generation (workspace/commands/commit.py): the
// `--discard`/`--move` path, which reads the last commit hash out of `git log` text,
// and the commit path, which picks or derives the branch, materialises it, commits
// and hands over to `push`.
module WsCommit {
  import opened Wrappers
  import opened Text
  import opened Repository
  import opened WsUpdate
  import WsScm
  import WsPush
  import BranchNaming

  /** The history text the flow asks git for. */
  datatype LogQuery =
    | CommitLogs(limit: nat)                  // `git log --decorate -<limit>` on the checked-out branch
    | DiffBranch(right: Branch, left: Branch) // `git log <left>..<right>`

  /** The options of `Commit.run` that the model follows. */
  datatype CommitArgs = CommitArgs(
    msg: string,
    branch: Option<Branch>,
    amend: bool,
    push: bool,
    rb: bool,
    discard: nat,
    move: Option<Branch>)

  const EntrySeparator := "commit "

  // ---------------------------------------------------------------------------
  // Reading `git log` text

  /** `[_f for _f in text.split('commit ') if _f]`. */
  function Entries(text: string): seq<string>
  {
    BranchNaming.NonEmpty(Split(text, EntrySeparator))
  }

  /** The text `git log` prints for a list of entries, each the part after `commit `. */
  function LogText(es: seq<string>): string
  {
    if es == [] then "" else EntrySeparator + es[0] + LogText(es[1..])
  }

  /** An entry as git prints it: it ends its last line, and the message does not
      itself contain `commit `. */
  predicate WellFormedEntry(e: string)
  {
    EndsWith(e, "\n") && !Contains(e, EntrySeparator)
  }

  lemma {:induction false} NonEmptyCons(x: string, ps: seq<string>)
    ensures BranchNaming.NonEmpty([x] + ps) == (if x == "" then [] else [x]) + BranchNaming.NonEmpty(ps)
    decreases |ps|
  {
    var head: seq<string> := if x == "" then [] else [x];
    if ps != [] {
      var init := ps[..|ps| - 1];
      var last := ps[|ps| - 1];
      var tail: seq<string> := if last == "" then [] else [last];
      var xs := [x] + ps;
      assert xs[..|xs| - 1] == [x] + init;
      assert xs[|xs| - 1] == last;
      assert BranchNaming.NonEmpty(xs) == BranchNaming.NonEmpty([x] + init) + tail;
      NonEmptyCons(x, init);
      assert BranchNaming.NonEmpty(ps) == BranchNaming.NonEmpty(init) + tail;
      assert BranchNaming.NonEmpty(xs) == head + BranchNaming.NonEmpty(init) + tail;
    } else {
      assert [x] + ps == [x];
      assert [x][..0] == [];
      assert BranchNaming.NonEmpty([x]) == BranchNaming.NonEmpty([]) + head;
    }
  }

  /** The first `commit ` after a well-formed entry is the one that follows it. */
  lemma SeparatorAfterEntry(e: string, rest: string)
    requires WellFormedEntry(e)
    ensures FindFrom(e + EntrySeparator + rest, EntrySeparator, 0) == Some(|e|)
  {
    var t := e + EntrySeparator + rest;
    assert OccursAt(t, EntrySeparator, |e|) by {
      assert t[|e|..|e| + |EntrySeparator|] == EntrySeparator;
    }
    ContainsIff(e, EntrySeparator);
    forall j | 0 <= j < |e| ensures !OccursAt(t, EntrySeparator, j) {
      if j + |EntrySeparator| <= |e| {
        assert t[j..j + |EntrySeparator|] == e[j..j + |EntrySeparator|];
        assert !OccursAt(e, EntrySeparator, j);
      } else if j + |EntrySeparator| <= |t| {
        var d := |e| - 1 - j;
        assert t[j..j + |EntrySeparator|][d] == t[|e| - 1] == '\n';
        assert EntrySeparator[d] != '\n';
      }
    }
    FindFromFirst(t, EntrySeparator, 0, |e|);
  }

  lemma {:induction false} SplitEntries(es: seq<string>)
    requires es != [] && forall i :: 0 <= i < |es| ==> WellFormedEntry(es[i])
    ensures Split(es[0] + LogText(es[1..]), EntrySeparator) == es
    decreases |es|
  {
    var e := es[0];
    if |es| == 1 {
      assert LogText(es[1..]) == "";
      assert e + "" == e;
      ContainsIff(e, EntrySeparator);
    } else {
      var tail := es[1..];
      var p := tail[0] + LogText(tail[1..]);
      assert LogText(tail) == EntrySeparator + p by {
        AppendAssoc(EntrySeparator, tail[0], LogText(tail[1..]));
      }
      AppendAssoc(e, EntrySeparator, p);
      SplitAfterEntry(e, p);
      SplitEntries(tail);
      assert es == [e] + tail;
    }
  }

  /** A well-formed entry followed by the separator is the first piece of the split. */
  lemma SplitAfterEntry(e: string, p: string)
    requires WellFormedEntry(e)
    ensures Split(e + EntrySeparator + p, EntrySeparator) == [e] + Split(p, EntrySeparator)
  {
    var t := e + EntrySeparator + p;
    SeparatorAfterEntry(e, p);
    assert t[..|e|] == e;
    assert t[|e| + |EntrySeparator|..] == p;
  }

  /** A text that starts with the separator splits into an empty piece first. */
  lemma SplitLeading(body: string)
    ensures Split(EntrySeparator + body, EntrySeparator) == [""] + Split(body, EntrySeparator)
  {
    var t := EntrySeparator + body;
    assert t[0..|EntrySeparator|] == EntrySeparator;
    assert FindFrom(t, EntrySeparator, 0) == Some(0);
    assert t[..0] == "" && t[|EntrySeparator|..] == body;
  }

  /** The entries read back from a log of well-formed entries are those entries: their
      number is the number of commits in the log. */
  lemma {:induction false} EntriesOfLog(es: seq<string>)
    requires forall i :: 0 <= i < |es| ==> WellFormedEntry(es[i]) && es[i] != ""
    ensures Entries(LogText(es)) == es
  {
    if es == [] {
      assert Split("", EntrySeparator) == [""];
      assert BranchNaming.NonEmpty([""]) == BranchNaming.NonEmpty([]) + [];
    } else {
      var body := es[0] + LogText(es[1..]);
      var text := LogText(es);
      assert text == EntrySeparator + body;
      SplitLeading(body);
      SplitEntries(es);
      var pieces := Split(text, EntrySeparator);
      assert pieces == [""] + es;
      NonEmptyCons("", es);
      NonEmptyKeeps(es);
      assert Entries(text) == BranchNaming.NonEmpty(pieces);
    }
  }

  lemma {:induction false} NonEmptyKeeps(es: seq<string>)
    requires forall i :: 0 <= i < |es| ==> es[i] != ""
    ensures BranchNaming.NonEmpty(es) == es
  {
    if es != [] {
      NonEmptyKeeps(es[..|es| - 1]);
      assert es[..|es| - 1] + [es[|es| - 1]] == es;
    }
  }

  // ---------------------------------------------------------------------------
  // The hash at the head of an entry

  predicate IsHexDigit(c: char) { '0' <= c <= '9' || 'a' <= c <= 'f' }

  /** The length of the longest prefix of lower-case hex digits. */
  function HexLength(s: string): (n: nat)
    ensures n <= |s| && (forall i :: 0 <= i < n ==> IsHexDigit(s[i]))
    ensures n < |s| ==> !IsHexDigit(s[n])
  {
    if s != [] && IsHexDigit(s[0]) then 1 + HexLength(s[1..]) else 0
  }

  predicate AllHex(h: string) { forall i :: 0 <= i < |h| ==> IsHexDigit(h[i]) }

  /** A first line `<hash> (<refs>)`: the decoration runs from just after the hash to a
      `)` that closes the first line, which ends at `nl`. */
  predicate Decorated(e: string, k: nat, nl: nat)
    requires k <= nl < |e|
  {
    k + 3 <= nl && e[k..k + 2] == " (" && e[nl - 1] == ')'
  }

  /** `re.match('([a-f0-9]+)(?: \(.*\))\n', entry)` as written: the decoration after the
      hash is required. */
  function MatchHashAsWritten(e: string): (r: Option<Hash>)
  {
    var k := HexLength(e);
    match FindFrom(e, "\n", k)
    case None => None
    case Some(nl) => if k > 0 && Decorated(e, k, nl) then Some(e[..k]) else None
  }

  /** The match with the decoration optional, `([a-f0-9]+)(?: \(.*\))?\n`: the hash is
      also read from an undecorated first line. */
  function MatchHash(e: string): (r: Option<Hash>)
    ensures r.Some? ==> r.value != "" && AllHex(r.value) && StartsWith(e, r.value)
  {
    var k := HexLength(e);
    match FindFrom(e, "\n", k)
    case None => None
    case Some(nl) => if k > 0 && (nl == k || Decorated(e, k, nl)) then Some(e[..k]) else None
  }

  lemma HexLengthOf(h: string, rest: string)
    requires AllHex(h) && (rest == [] || !IsHexDigit(rest[0]))
    ensures HexLength(h + rest) == |h|
    decreases |h|
  {
    if h != [] {
      assert (h + rest)[1..] == h[1..] + rest;
      HexLengthOf(h[1..], rest);
    } else {
      assert h + rest == rest;
    }
  }

  /** The first newline at or after the end of `p`, when `a` has none, ends `a`. */
  lemma {:induction false} NewlineAfter(p: string, a: string, b: string)
    requires '\n' !in a
    ensures FindFrom(p + a + "\n" + b, "\n", |p|) == Some(|p| + |a|)
    decreases |a|
  {
    var e := p + a + "\n" + b;
    if a == [] {
      assert e[|p|..|p| + 1] == "\n";
    } else {
      assert e[|p|..|p| + 1] == [a[0]];
      assert e == (p + [a[0]]) + a[1..] + "\n" + b;
      NewlineAfter(p + [a[0]], a[1..], b);
    }
  }

  lemma DecorationOneLine(refs: string)
    requires '\n' !in refs
    ensures '\n' !in " (" + refs + ")"
  {
    var a := " (" + refs + ")";
    forall j | 0 <= j < |a| ensures a[j] != '\n' {
      if 2 <= j < |a| - 1 { assert a[j] == refs[j - 2]; }
    }
  }

  /** The hash is read from the first line of a `git log --decorate` entry, by the
      regex as written and by the corrected one alike. */
  lemma DecoratedEntryMatches(h: Hash, refs: string, rest: string)
    requires h != "" && AllHex(h) && '\n' !in refs
    ensures MatchHashAsWritten(h + " (" + refs + ")\n" + rest) == Some(h)
    ensures MatchHash(h + " (" + refs + ")\n" + rest) == Some(h)
  {
    var a := " (" + refs + ")";
    EntryConcat(h, refs, rest);
    DecorationOneLine(refs);
    assert a[0] == ' ' && a[1] == '(' && a[|a| - 1] == ')';
    DecoratedFirstLine(h, a, rest);
  }

  /** Such an entry: the hash, then a decoration `a` that closes its first line. */
  lemma DecoratedFirstLine(h: Hash, a: string, rest: string)
    requires h != "" && AllHex(h) && '\n' !in a
    requires |a| >= 3 && a[0] == ' ' && a[1] == '(' && a[|a| - 1] == ')'
    ensures var e := h + a + "\n" + rest;
      && HexLength(e) == |h| && FindFrom(e, "\n", |h|) == Some(|h| + |a|)
      && Decorated(e, |h|, |h| + |a|) && e[..|h|] == h
  {
    FirstLineHex(h, a, rest);
    NewlineAfter(h, a, rest);
    FirstLineParens(h, a, rest);
  }

  /** The hash is the leading run of hex digits when a space follows it. */
  lemma FirstLineHex(h: Hash, a: string, rest: string)
    requires AllHex(h) && |a| > 0 && a[0] == ' '
    ensures HexLength(h + a + "\n" + rest) == |h|
  {
    var e := h + a + "\n" + rest;
    assert e == h + (a + "\n" + rest) by {
      AppendAssoc(h, a, "\n");
      AppendAssoc(h, a + "\n", rest);
    }
    HexLengthOf(h, a + "\n" + rest);
  }

  /** The decoration's parentheses and the hash, read off the entry. */
  lemma FirstLineParens(h: Hash, a: string, rest: string)
    requires |a| >= 3 && a[0] == ' ' && a[1] == '(' && a[|a| - 1] == ')'
    ensures var e := h + a + "\n" + rest;
      && e[|h|..|h| + 2] == " (" && e[|h| + |a| - 1] == ')' && e[..|h|] == h
  {
    var e := h + a + "\n" + rest;
    assert e[|h|] == ' ' && e[|h| + 1] == '(';
    OpenParen(e[|h|..|h| + 2]);
  }

  lemma OpenParen(x: string)
    requires |x| == 2 && x[0] == ' ' && x[1] == '('
    ensures x == " ("
  {
  }

  /** The entry with its decoration written as one piece. */
  lemma EntryConcat(h: string, refs: string, rest: string)
    ensures h + " (" + refs + ")\n" + rest == h + (" (" + refs + ")") + "\n" + rest
  {
    var p := h + " (" + refs;
    assert ")\n" == ")" + "\n";
    AppendAssoc(p, ")", "\n");
    AppendAssoc(h, " (", refs);
    AppendAssoc(h, " (" + refs, ")");
  }

  /** The corrected regex reads the hash from an undecorated entry, as `git log`
      prints one when it does not decorate. */
  lemma PlainEntryMatches(h: Hash, rest: string)
    requires h != "" && AllHex(h)
    ensures MatchHash(h + "\n" + rest) == Some(h)
  {
    var e := h + "\n" + rest;
    HexLengthOf(h, "\n" + rest);
    assert e == h + ("\n" + rest);
    NewlineAfter(h, "", rest);
    assert e == h + "" + "\n" + rest;
    assert e[..|h|] == h;
  }

  /** The regex as written finds no hash in an undecorated entry. */
  lemma PlainEntryRejected(h: Hash, rest: string)
    requires h != "" && AllHex(h)
    ensures MatchHashAsWritten(h + "\n" + rest) == None
  {
    var e := h + "\n" + rest;
    HexLengthOf(h, "\n" + rest);
    assert e == h + ("\n" + rest);
    NewlineAfter(h, "", rest);
    assert e == h + "" + "\n" + rest;
  }

  /** The correction only adds matches: wherever the regex as written finds a hash,
      the corrected one finds the same hash. */
  lemma MatchHashExtends(e: string)
    ensures MatchHashAsWritten(e).Some? ==> MatchHash(e) == MatchHashAsWritten(e)
  {
  }

  // ---------------------------------------------------------------------------
  // `--discard` and `--move`

  /** The branch the path works on: `--branch`, else the checked-out branch for
      `--discard`, else the `--move` target. */
  function TargetBranch(current: Option<Branch>, a: CommitArgs): (r: Option<Branch>)
    ensures Given(a.branch) ==> r == a.branch
    ensures !Given(a.branch) && a.discard > 0 ==> r == current
    ensures !Given(a.branch) && a.discard == 0 ==> r == a.move
  {
    if Given(a.branch) then a.branch else if a.discard > 0 then current else a.move
  }

  /** Where the changes come from: the commits of a child branch that its parent does
      not have, the last `discard` commits of a plain branch, or the last commit for
      `--move`. */
  function ChangesQuery(b: Branch, discard: nat, indicator: string): LogQuery
    requires |indicator| > 0
  {
    if discard > 0 then
      match RebaseParent(b, indicator)
      case Some(p) => DiffBranch(b, p)
      case None => CommitLogs(discard)
    else CommitLogs(1)
  }

  /** The move: a new branch at the checked-out commit, back to the branch that was
      checked out, which drops its last commit. `checkout_branch(None)` raises. */
  function MoveCalls(current: Option<Branch>, b: Branch, h: Hash): seq<Op>
  {
    if current.None? then [CreateBranch(b, None), Raise("TypeError")]
    else [CreateBranch(b, None), CheckoutCall(current.value), HardReset(h, 1)]
  }

  /** The calls of the `--discard`/`--move` path; `logs` answers the history query. An
      entry without a readable hash is logged and nothing is called. */
  function DiscardSteps(current: Option<Branch>, a: CommitArgs, indicator: string, logs: LogQuery -> string): seq<Step>
    requires |indicator| > 0
  {
    match TargetBranch(current, a)
    case None => Fatal([Raise("TypeError")])
    case Some(b) =>
      var parent := RebaseParent(b, indicator);
      var changes := Entries(logs(ChangesQuery(b, a.discard, indicator)));
      if a.discard > 0 && |changes| <= a.discard && parent.Some? then
        Fatal([CheckoutCall(parent.value), DeleteBranch(b, true)])
      else if changes == [] then Fatal([Raise("IndexError")])
      else
        match MatchHashAsWritten(changes[0])
        case None => []
        case Some(h) =>
          if a.move.Some? then Fatal(MoveCalls(current, b, h))
          else Fatal([CheckoutCall(b), HardReset(h, a.discard)])
  }

  // ---------------------------------------------------------------------------
  // The commit path

  /** The current-branch value the auto-branch test and name use: `branches and
      branches[0]` is the empty list, shown as `[]`, in a repository without branches. */
  function CurrentShown(branches: seq<Branch>): string
  {
    if branches == [] then "[]" else branches[0]
  }

  /** The auto-branch test of the source: not pushing without review, not amending,
      the checked-out branch is not a child, no branch given, a message, and a word
      budget. */
  predicate AutoBranch(a: CommitArgs, msg: string, words: nat, indicator: string, branches: seq<Branch>)
  {
    && !((!a.rb && a.push) || a.amend)
    && (branches == [] || !Contains(branches[0], indicator))
    && !Given(a.branch)
    && msg != ""
    && words > 0
  }

  /** `'{}@{}'.format(name, cur_branch)` as written: the separator is always `@`. */
  function AutoNameAsWritten(name: string, cur: string): string
  {
    name + "@" + cur
  }

  /** The auto-created branch name with the configured indicator between the derived
      name and the branch it was created from. */
  function AutoName(name: string, cur: string, indicator: string): string
  {
    name + indicator + cur
  }

  /** With the default indicator the corrected name is the name as written. */
  lemma AutoNameDefault(name: string, cur: string)
    ensures AutoName(name, cur, "@") == AutoNameAsWritten(name, cur)
  {
  }

  /** The name as written is no child branch under any other one-character indicator
      that neither part contains. */
  lemma AutoNameAsWrittenNotChild(name: string, cur: string, indicator: string)
    requires |indicator| == 1 && indicator != "@"
    requires !Contains(name, indicator) && !Contains(cur, indicator)
    ensures WsScm.ParentBranch(AutoNameAsWritten(name, cur), indicator).None?
  {
    var b := AutoNameAsWritten(name, cur);
    var c := indicator[0];
    assert indicator == [c];
    ContainsIff(name, indicator);
    ContainsIff(cur, indicator);
    forall j | 0 <= j < |b| ensures b[j] != c {
      if j < |name| {
        assert name[j..j + 1] == [b[j]];
        assert !OccursAt(name, indicator, j);
      } else if j > |name| {
        assert cur[j - |name| - 1..j - |name|] == [b[j]];
        assert !OccursAt(cur, indicator, j - |name| - 1);
      }
    }
    ContainsIff(b, indicator);
  }

  /** An auto-created branch is a child of the branch it was created from: its parent
      is that branch. */
  lemma AutoNameIsChild(name: string, cur: string, indicator: string)
    requires |indicator| == 1 && !Contains(cur, indicator) && cur != ""
    ensures RebaseParent(AutoName(name, cur, indicator), indicator) == Some(cur)
  {
    WsScm.ParentOfChildName(name, indicator, cur);
  }

  /** The branch the commit goes to: the derived child name, the `--branch` option,
      or none (commit on the checked-out branch); Err when no name can be derived. */
  function CommitBranch(a: CommitArgs, msg: string, words: nat, indicator: string, branches: seq<Branch>): Result<Option<Branch>>
  {
    if AutoBranch(a, msg, words, indicator, branches) then
      match BranchNaming.BranchName(msg, words, branches)
      case Err(e) => Err(e)
      case Ok(n) => Ok(Some(AutoNameAsWritten(n, CurrentShown(branches))))
    else if Given(a.branch) then Ok(a.branch)
    else Ok(None)
  }

  /** Getting onto the commit branch: check out an existing other branch, create a
      missing one from the checked-out branch, or create it in an empty repository. */
  function Materialise(b: Branch, branches: seq<Branch>): seq<Op>
  {
    if branches != [] then
      if b in branches then (if b != branches[0] then [CheckoutCall(b)] else [])
      else [CreateBranch(b, Some(branches[0]))]
    else [CreateBranch(b, None)]
  }

  /** The branch checked out once `Materialise` has run. */
  function CommittedOn(b: Branch, branches: seq<Branch>): Branch
  {
    if b in branches && b != branches[0] then CheckoutTarget(b) else b
  }

  /** The message: the argument, or the editor's text when there is neither a message
      nor `--amend`. */
  function Message(a: CommitArgs, editor: string): string
  {
    if a.msg != "" || a.amend then a.msg else editor
  }

  /** The branch checked out once the commit is made: the commit branch, or the
      checked-out (or unborn) one `head`. */
  function CommitTarget(nb: Option<Branch>, branches: seq<Branch>, head: Branch): Branch
  {
    if nb.Some? then CommittedOn(nb.value, branches) else head
  }

  /** Getting onto the commit branch, `add_files()` and `local_commit(msg, amend)`. */
  function CommitCalls(nb: Option<Branch>, branches: seq<Branch>, hash: Hash, amend: bool): seq<Op>
  {
    (if nb.Some? then Materialise(nb.value, branches) else []) + [AddFiles, Commit(hash, amend)]
  }

  /** The calls of the commit path; `head` is the checked-out (or unborn) branch and
      `hash` the commit git creates. `--push` hands over to `push` with `force` set to
      `--amend`. */
  function CommitSteps(a: CommitArgs, editor: string, words: nat, indicator: string,
                       branches: seq<Branch>, head: Branch, hash: Hash): seq<Step>
    requires |indicator| > 0
  {
    var msg := Message(a, editor);
    if msg == "" && !a.amend then Fatal([Exit(0)])
    else
      match CommitBranch(a, msg, words, indicator, branches)
      case Err(_) => Fatal([Raise("Exception")])
      case Ok(nb) =>
        Fatal(CommitCalls(nb, branches, hash, a.amend))
          + (if a.push then WsPush.PushSteps(Some(CommitTarget(nb, branches, head)), nb, false, a.amend, indicator) else [])
  }

  /** `Commit.run`. */
  function Steps(a: CommitArgs, current: Option<Branch>, head: Branch, editor: string, words: nat,
                 indicator: string, branches: seq<Branch>, logs: LogQuery -> string, hash: Hash): seq<Step>
    requires |indicator| > 0
  {
    if a.discard > 0 || a.move.Some? then DiscardSteps(current, a, indicator, logs)
    else CommitSteps(a, editor, words, indicator, branches, head, hash)
  }

  /** `all_branches()`: every local branch, the checked-out one first. */
  predicate ListsBranches(branches: seq<Branch>, s: RepoState)
  {
    (forall b :: b in branches ==> b in s.heads) && (forall b :: b in s.heads ==> b in branches) && (branches != [] ==> branches[0] == s.current)
  }

  /** An empty listing is a repository without branches. */
  lemma EmptyListing(branches: seq<Branch>, s: RepoState)
    requires ListsBranches(branches, s)
    ensures branches == [] <==> s.heads == map[]
  {
    if branches == [] {
      assert s.heads.Keys == {};
    } else {
      assert branches[0] in s.heads;
    }
  }

  method Run(repo: Repo, a: CommitArgs, editor: string, words: nat, indicator: string,
             branches: seq<Branch>, logs: LogQuery -> string, hash: Hash) returns (halt: Option<Op>)
    requires repo.Valid() && |indicator| > 0 && ListsBranches(branches, repo.State())
    modifies repo
    ensures repo.Valid()
    ensures Exec(old(repo.State()), Steps(a, HeadBranch(old(repo.State())), old(repo.current), editor, words,
                                          indicator, branches, logs, hash)) == Repository.Run(repo.State(), halt)
  {
    var current := repo.CurrentBranch();
    var plan := Steps(a, current, repo.current, editor, words, indicator, branches, logs, hash);
    halt := repo.Execute(plan);
  }

  // ---------------------------------------------------------------------------
  // What the `--discard`/`--move` path does

  /** `h` is the last commit of `hs` and appears nowhere before it. */
  predicate Tip(hs: seq<Hash>, h: Hash)
  {
    hs != [] && hs[|hs| - 1] == h && h !in hs[..|hs| - 1]
  }

  lemma TipIndex(hs: seq<Hash>, h: Hash)
    requires Tip(hs, h)
    ensures h in hs && IndexOf(hs, h) == |hs| - 1
  {
    forall j | 0 <= j < |hs| - 1 ensures hs[j] != h {
      assert hs[j] == hs[..|hs| - 1][j];
    }
  }

  /** The `--discard` case that deletes the branch: a child branch none of whose own
      commits would be left. */
  predicate DeletesChild(current: Option<Branch>, a: CommitArgs, indicator: string, logs: LogQuery -> string)
    requires |indicator| > 0
  {
    var t := TargetBranch(current, a);
    t.Some? && a.discard > 0 && RebaseParent(t.value, indicator).Some?
    && |Entries(logs(ChangesQuery(t.value, a.discard, indicator)))| <= a.discard
  }

  /** `--discard` on a child branch with no more of its own commits than are discarded
      checks out the parent and deletes the branch; that succeeds exactly when both
      exist, and leaves every other branch as it was. */
  lemma DiscardDeletesChild(s: RepoState, a: CommitArgs, indicator: string, logs: LogQuery -> string, b: Branch, p: Branch)
    requires ValidState(s) && |indicator| > 0 && a.discard > 0
    requires TargetBranch(HeadBranch(s), a) == Some(b) && RebaseParent(b, indicator) == Some(p) && '/' !in p
    requires |Entries(logs(DiffBranch(b, p)))| <= a.discard
    ensures DeletesChild(HeadBranch(s), a, indicator, logs)
    ensures DiscardSteps(HeadBranch(s), a, indicator, logs) == Fatal([Checkout(p, None), DeleteBranch(b, true)])
    ensures var r := Exec(s, DiscardSteps(HeadBranch(s), a, indicator, logs));
      && (r.halt.None? <==> p in s.heads && b in s.heads)
      && (r.halt.None? ==> r.state.heads == s.heads - {b} && r.state.current == p && r.state.remote == s.remote)
  {
    assert Contains(b, indicator) && !Contains(p, indicator);
    var ops := [Checkout(p, None), DeleteBranch(b, true)];
    FatalIsApplyAll(s, ops);
    ApplyAllCons(s, ops[0], ops[1..]);
    ApplyCheckout(s, p);
    if p in s.heads {
      var t := Apply(s, ops[0]).value;
      ApplyAllCons(t, ops[1], []);
    }
  }

  /** `--discard N` on a branch whose last commit is the hash read from the log: the
      branch is checked out and loses exactly its last N commits; that succeeds
      exactly when the branch exists and has more than N commits. */
  lemma DiscardDropsCommits(s: RepoState, a: CommitArgs, indicator: string, logs: LogQuery -> string, b: Branch, h: Hash)
    requires ValidState(s) && |indicator| > 0 && a.discard > 0 && a.move.None?
    requires TargetBranch(HeadBranch(s), a) == Some(b) && '/' !in b
    requires !DeletesChild(HeadBranch(s), a, indicator, logs)
    requires var changes := Entries(logs(ChangesQuery(b, a.discard, indicator)));
      changes != [] && MatchHashAsWritten(changes[0]) == Some(h)
    requires b in s.heads ==> Tip(s.heads[b], h)
    ensures DiscardSteps(HeadBranch(s), a, indicator, logs) == Fatal([Checkout(b, None), HardReset(h, a.discard)])
    ensures var r := Exec(s, DiscardSteps(HeadBranch(s), a, indicator, logs));
      && (r.halt.None? <==> b in s.heads && a.discard < |s.heads[b]|)
      && (r.halt.None? ==> r.state.heads == s.heads[b := s.heads[b][..|s.heads[b]| - a.discard]]
                           && r.state.current == b && r.state.remote == s.remote)
  {
    CheckoutReset(s, b, h, a.discard);
  }

  /** Checking out a branch whose last commit is `h` and resetting it to `h~n`. */
  lemma CheckoutReset(s: RepoState, b: Branch, h: Hash, n: nat)
    requires ValidState(s) && (b in s.heads ==> Tip(s.heads[b], h))
    ensures var r := Exec(s, Fatal([Checkout(b, None), HardReset(h, n)]));
      && (r.halt.None? <==> b in s.heads && n < |s.heads[b]|)
      && (r.halt.None? ==> r.state.heads == s.heads[b := s.heads[b][..|s.heads[b]| - n]]
                           && r.state.current == b && r.state.remote == s.remote)
  {
    FatalIsApplyAll(s, [Checkout(b, None), HardReset(h, n)]);
    CheckoutResetCalls(s, b, h, n);
  }

  /** The same two calls, one after the other. */
  lemma CheckoutResetCalls(s: RepoState, b: Branch, h: Hash, n: nat)
    requires ValidState(s) && (b in s.heads ==> Tip(s.heads[b], h))
    ensures var r := ApplyAll(s, [Checkout(b, None), HardReset(h, n)]);
      && (r.Some? <==> b in s.heads && n < |s.heads[b]|)
      && (r.Some? ==> r.value.heads == s.heads[b := s.heads[b][..|s.heads[b]| - n]]
                      && r.value.current == b && r.value.remote == s.remote)
  {
    var ops := [Checkout(b, None), HardReset(h, n)];
    ApplyAllCons(s, ops[0], ops[1..]);
    ApplyCheckout(s, b);
    if b in s.heads {
      TipIndex(s.heads[b], h);
      var t := Apply(s, ops[0]).value;
      ApplyAllCons(t, ops[1], []);
    }
  }

  /** `--move B` when the hash read from the log is the last commit of the checked-out
      branch: B is created there, the branch is checked out again and loses that
      commit, which stays on B. It succeeds exactly when B is new and the commit has
      a parent. */
  lemma MoveLastCommit(s: RepoState, a: CommitArgs, indicator: string, logs: LogQuery -> string, b: Branch, h: Hash)
    requires ValidState(s) && |indicator| > 0 && a.discard == 0 && a.move.Some?
    requires s.heads != map[] && '/' !in s.current && Tip(s.heads[s.current], h)
    requires TargetBranch(HeadBranch(s), a) == Some(b)
    requires var changes := Entries(logs(CommitLogs(1))); changes != [] && MatchHashAsWritten(changes[0]) == Some(h)
    ensures DiscardSteps(HeadBranch(s), a, indicator, logs)
            == Fatal([CreateBranch(b, None), Checkout(s.current, None), HardReset(h, 1)])
    ensures var r := Exec(s, DiscardSteps(HeadBranch(s), a, indicator, logs));
      var hs := s.heads[s.current];
      && (r.halt.None? <==> b !in s.heads && |hs| > 1)
      && (r.halt.None? ==> r.state.heads == s.heads[b := hs][s.current := hs[..|hs| - 1]]
                           && r.state.current == s.current && r.state.remote == s.remote)
  {
    assert MoveCalls(HeadBranch(s), b, h) == [CreateBranch(b, None), Checkout(s.current, None), HardReset(h, 1)];
    CreateAndReset(s, b, h);
  }

  /** Creating a branch at the checked-out commit, going back, resetting by one. */
  lemma CreateAndReset(s: RepoState, b: Branch, h: Hash)
    requires ValidState(s) && s.heads != map[] && Tip(s.heads[s.current], h)
    ensures var r := Exec(s, Fatal([CreateBranch(b, None), Checkout(s.current, None), HardReset(h, 1)]));
      var hs := s.heads[s.current];
      && (r.halt.None? <==> b !in s.heads && |hs| > 1)
      && (r.halt.None? ==> r.state.heads == s.heads[b := hs][s.current := hs[..|hs| - 1]]
                           && r.state.current == s.current && r.state.remote == s.remote)
  {
    var rest := [Checkout(s.current, None), HardReset(h, 1)];
    var ops := [CreateBranch(b, None)] + rest;
    assert Fatal(ops) == [Step(ops[0], true)] + Fatal(rest);
    if b !in s.heads {
      var t1 := Apply(s, ops[0]).value;
      assert t1.heads == s.heads[b := s.heads[s.current]] && t1.current == b;
      CheckoutReset(t1, s.current, h, 1);
      assert t1.heads[s.current] == s.heads[s.current];
      assert Exec(s, Fatal(ops)) == Exec(t1, Fatal(rest));
    }
  }

  /** A log with no entry makes `changes[0]` raise IndexError, and an entry with no
      readable hash is only reported: either way the repository is untouched. */
  lemma UnreadableLog(s: RepoState, a: CommitArgs, indicator: string, logs: LogQuery -> string, b: Branch)
    requires ValidState(s) && |indicator| > 0 && (a.discard > 0 || a.move.Some?)
    requires TargetBranch(HeadBranch(s), a) == Some(b) && !DeletesChild(HeadBranch(s), a, indicator, logs)
    ensures var changes := Entries(logs(ChangesQuery(b, a.discard, indicator)));
      var r := Exec(s, DiscardSteps(HeadBranch(s), a, indicator, logs));
      && (changes == [] ==> r == Repository.Run(s, Some(Raise("IndexError"))))
      && (changes != [] && MatchHashAsWritten(changes[0]).None? ==> r == Repository.Run(s, None))
  {
    var changes := Entries(logs(ChangesQuery(b, a.discard, indicator)));
    if changes == [] {
      assert Fatal([Raise("IndexError")]) == [Step(Raise("IndexError"), true)];
    }
  }

  // ---------------------------------------------------------------------------
  // What the commit path does

  /** The commit branch is a derived name exactly when the auto-branch test holds, and
      the error is the naming error; the derived branch joins the name and the branch
      that was checked out with `@`, so it is a child of that branch under the default
      indicator. Without the test the `--branch` option, if any, is used. */
  lemma AutoBranchChoice(a: CommitArgs, msg: string, words: nat, indicator: string, branches: seq<Branch>)
    requires |indicator| == 1
    ensures var r := CommitBranch(a, msg, words, indicator, branches);
      var n := BranchNaming.BranchName(msg, words, branches);
      && (r.Err? <==> AutoBranch(a, msg, words, indicator, branches) && n.Err?)
      && (r.Err? ==> r.error == n.error)
      && (AutoBranch(a, msg, words, indicator, branches) && n.Ok? ==>
            r == Ok(Some(n.value + "@" + CurrentShown(branches))))
      && (AutoBranch(a, msg, words, indicator, branches) && n.Ok? && branches != [] && branches[0] != "" && indicator == "@" ==>
            RebaseParent(r.value.value, indicator) == Some(branches[0]))
      && (!AutoBranch(a, msg, words, indicator, branches) ==> r == Ok(if Given(a.branch) then a.branch else None))
  {
    if AutoBranch(a, msg, words, indicator, branches) && BranchNaming.BranchName(msg, words, branches).Ok? && branches != [] && branches[0] != "" && indicator == "@" {
      var n := BranchNaming.BranchName(msg, words, branches).value;
      AutoNameDefault(n, branches[0]);
      AutoNameIsChild(n, branches[0], indicator);
    }
  }

  /** The commits the commit goes on top of: those of an existing commit branch, else
      those of the checked-out branch, which a new branch starts from. */
  function CommitBase(s: RepoState, nb: Option<Branch>): seq<Hash>
    requires ValidState(s)
  {
    if nb.Some? && nb.value in s.heads then s.heads[nb.value]
    else if s.heads == map[] then []
    else s.heads[s.current]
  }

  /** Getting onto the commit branch always succeeds: the branch is then checked out
      and holds the commits it will build on; nothing else changes but a `-B` target. */
  lemma MaterialiseOutcome(s: RepoState, b: Branch, branches: seq<Branch>)
    requires ValidState(s) && ListsBranches(branches, s)
    ensures ApplyAll(s, Materialise(b, branches)).Some?
    ensures var t := ApplyAll(s, Materialise(b, branches)).value;
      && t.current == CommittedOn(b, branches) && t.remote == s.remote
      && t.heads == s.heads[t.current := CommitBase(s, Some(b))]
  {
    if b in branches && b != branches[0] {
      MaterialiseCheckout(s, b, branches);
    } else if b in branches {
      assert s.heads[b := s.heads[b]] == s.heads;
    } else {
      MaterialiseCreate(s, b, branches);
    }
  }

  /** A listed branch other than the current one is checked out. */
  lemma MaterialiseCheckout(s: RepoState, b: Branch, branches: seq<Branch>)
    requires ValidState(s) && ListsBranches(branches, s) && b in branches && b != branches[0]
    ensures ApplyAll(s, Materialise(b, branches)).Some?
    ensures var t := ApplyAll(s, Materialise(b, branches)).value;
      && t.current == CommittedOn(b, branches) && t.remote == s.remote
      && t.heads == s.heads[t.current := CommitBase(s, Some(b))]
  {
    var op := CheckoutCall(b);
    assert Materialise(b, branches) == [op];
    ApplyAllCons(s, op, []);
    ApplyCheckoutAs(s, b, op.resetAs);
    assert CommittedOn(b, branches) == CheckoutTarget(b);
  }

  /** A branch that is not listed is created, from the current branch if there is one. */
  lemma MaterialiseCreate(s: RepoState, b: Branch, branches: seq<Branch>)
    requires ValidState(s) && ListsBranches(branches, s) && b !in branches
    ensures ApplyAll(s, Materialise(b, branches)).Some?
    ensures var t := ApplyAll(s, Materialise(b, branches)).value;
      && t.current == CommittedOn(b, branches) && t.remote == s.remote
      && t.heads == s.heads[t.current := CommitBase(s, Some(b))]
  {
    EmptyListing(branches, s);
    var op := if branches != [] then CreateBranch(b, Some(branches[0])) else CreateBranch(b, None);
    assert Materialise(b, branches) == [op];
    ApplyAllCons(s, op, []);
  }

  /** The commit path up to and including the commit: it succeeds exactly when there
      is a commit to amend or no amend; then the commit branch is checked out, and its
      commits are those it was built on with the last one replaced (amend) or the new
      commit added. No other branch changes except a `-B` checkout target, and the
      remote is untouched. */
  lemma CommitOutcome(s: RepoState, nb: Option<Branch>, branches: seq<Branch>, hash: Hash, amend: bool)
    requires ValidState(s) && ListsBranches(branches, s)
    ensures var base := CommitBase(s, nb);
      var r := ApplyAll(s, CommitCalls(nb, branches, hash, amend));
      && (r.Some? <==> !amend || base != [])
      && (r.Some? ==> var on := CommitTarget(nb, branches, s.current);
            && r.value.current == on && r.value.remote == s.remote
            && r.value.heads == s.heads[on := (if amend then base[..|base| - 1] else base) + [hash]])
  {
    if nb.Some? {
      CommitOnBranch(s, nb.value, branches, hash, amend);
    } else {
      assert CommitCalls(nb, branches, hash, amend) == [AddFiles, Commit(hash, amend)];
      AddAndCommit(s, CommitBase(s, nb), hash, amend);
    }
  }

  /** The same for a commit branch named on the command line. */
  lemma CommitOnBranch(s: RepoState, b: Branch, branches: seq<Branch>, hash: Hash, amend: bool)
    requires ValidState(s) && ListsBranches(branches, s)
    ensures var base := CommitBase(s, Some(b));
      var r := ApplyAll(s, Materialise(b, branches) + [AddFiles, Commit(hash, amend)]);
      && (r.Some? <==> !amend || base != [])
      && (r.Some? ==> var on := CommittedOn(b, branches);
            && r.value.current == on && r.value.remote == s.remote
            && r.value.heads == s.heads[on := (if amend then base[..|base| - 1] else base) + [hash]])
  {
    var m := Materialise(b, branches);
    var base := CommitBase(s, Some(b));
    ApplyAllAppend(s, m, [AddFiles, Commit(hash, amend)]);
    MaterialiseOutcome(s, b, branches);
    var t := ApplyAll(s, m).value;
    var x := (if amend && base != [] then base[..|base| - 1] else base) + [hash];
    assert t.heads[t.current := x] == s.heads[t.current := x];
    AddAndCommit(t, base, hash, amend);
  }

  /** `add_files()` then `local_commit()` on a branch holding `base`. */
  lemma AddAndCommit(t: RepoState, base: seq<Hash>, hash: Hash, amend: bool)
    requires ValidState(t) && (if t.current in t.heads then t.heads[t.current] else []) == base
    ensures var r := ApplyAll(t, [AddFiles, Commit(hash, amend)]);
      && (r.Some? <==> !amend || base != [])
      && (r.Some? ==> r.value.current == t.current && r.value.remote == t.remote
                      && r.value.heads == t.heads[t.current := (if amend then base[..|base| - 1] else base) + [hash]])
  {
    ApplyAllCons(t, AddFiles, [Commit(hash, amend)]);
    ApplyAddFiles(t);
    var t1 := Apply(t, AddFiles).value;
    ApplyAllCons(t1, Commit(hash, amend), []);
    ApplyCommit(t1, hash, amend);
    assert [AddFiles] + [Commit(hash, amend)] == [AddFiles, Commit(hash, amend)];
  }

  /** `--push` after a commit on a branch without a parent: once the run has ended
      without a failure, the commit branch is checked out and the remote holds it. */
  lemma CommitThenPush(s: RepoState, a: CommitArgs, editor: string, words: nat, indicator: string,
                       branches: seq<Branch>, hash: Hash, nb: Option<Branch>)
    requires ValidState(s) && |indicator| > 0 && ListsBranches(branches, s) && a.push
    requires Message(a, editor) != "" || a.amend
    requires CommitBranch(a, Message(a, editor), words, indicator, branches) == Ok(nb)
    requires RebaseParent(CommitTarget(nb, branches, s.current), indicator).None?
    ensures var r := Exec(s, CommitSteps(a, editor, words, indicator, branches, s.current, hash));
      var on := CommitTarget(nb, branches, s.current);
      r.halt.None? ==> r.state.current == on && on in r.state.heads && on in r.state.remote
                       && r.state.remote[on] == r.state.heads[on]
  {
    CommitPushPlan(a, editor, words, indicator, branches, s.current, hash, nb);
    CommitPushRun(s, nb, branches, hash, a.amend, indicator);
  }

  /** With `--push`, a commit that goes ahead is followed by the push. */
  lemma CommitPushPlan(a: CommitArgs, editor: string, words: nat, indicator: string,
                       branches: seq<Branch>, head: Branch, hash: Hash, nb: Option<Branch>)
    requires |indicator| > 0 && a.push && (Message(a, editor) != "" || a.amend)
    requires CommitBranch(a, Message(a, editor), words, indicator, branches) == Ok(nb)
    ensures CommitSteps(a, editor, words, indicator, branches, head, hash)
            == Fatal(CommitCalls(nb, branches, hash, a.amend))
               + WsPush.PushSteps(Some(CommitTarget(nb, branches, head)), nb, false, a.amend, indicator)
  {
  }

  /** The commit calls, then the push of the commit branch. */
  lemma CommitPushRun(s: RepoState, nb: Option<Branch>, branches: seq<Branch>, hash: Hash, amend: bool, indicator: string)
    requires ValidState(s) && |indicator| > 0 && ListsBranches(branches, s)
    requires RebaseParent(CommitTarget(nb, branches, s.current), indicator).None?
    ensures var on := CommitTarget(nb, branches, s.current);
      var r := Exec(s, Fatal(CommitCalls(nb, branches, hash, amend)) + WsPush.PushSteps(Some(on), nb, false, amend, indicator));
      r.halt.None? ==> r.state.current == on && on in r.state.heads && on in r.state.remote
                       && r.state.remote[on] == r.state.heads[on]
  {
    var on := CommitTarget(nb, branches, s.current);
    var c := CommitCalls(nb, branches, hash, amend);
    var push := WsPush.PushSteps(Some(on), nb, false, amend, indicator);
    ExecAppend(s, Fatal(c), push);
    FatalIsApplyAll(s, c);
    if ApplyAll(s, c).Some? {
      CommitOutcome(s, nb, branches, hash, amend);
      var t := ApplyAll(s, c).value;
      assert on in t.heads;
      PushCommitted(t, on, nb, amend, indicator);
    }
  }

  /** The push that follows a commit on `on`: once it has run without a failure, `on`
      is still checked out and the remote holds it as it is. */
  lemma PushCommitted(t: RepoState, on: Branch, nb: Option<Branch>, amend: bool, indicator: string)
    requires ValidState(t) && |indicator| > 0 && t.current == on && on in t.heads
    requires RebaseParent(on, indicator).None?
    ensures var r := Exec(t, WsPush.PushSteps(Some(on), nb, false, amend, indicator));
      r.halt.None? ==> r.state.current == on && on in r.state.heads && on in r.state.remote
                       && r.state.remote[on] == r.state.heads[on]
  {
    var push := WsPush.PushSteps(Some(on), nb, false, amend, indicator);
    assert HeadBranch(t) == Some(on);
    assert push == WsPush.PushSteps(HeadBranch(t), None, false, amend, indicator);
    WsPush.PlainPushPlan(t, false, amend, indicator);
    if Exec(t, push).halt.None? {
      WsPush.PullPushComplete(t, amend);
    }
  }
}
