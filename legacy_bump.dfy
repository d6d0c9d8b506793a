// `wst bump` of the older generation (src/workspace/commands/bump.py): the same flow
// as the current one, except that the commit and the push happen only in a git
// checkout, and the word count set for a message-less commit is never restored.
module LegacyBump {
  import opened Wrappers
  import opened Bump
  import WsUpdate

  /** What follows the bump when something was bumped: the tests, then the push of a
      git checkout. */
  function AfterBump(a: BumpArgs, b: Bumped, isGit: bool, branch: Option<string>): seq<Action>
  {
    if !b.hasBumps then []
    else
      (if a.test > 0 then [Test(a.test > 1)] else [])
      + (if !a.dryRun && a.push && isGit then [Push(branch)] else [])
  }

  /** The commit: made when the bumper has messages, it is not a dry run and the
      checkout is git. */
  function Committed(a: BumpArgs, b: Bumped, isGit: bool, text: string, words: nat): seq<Action>
  {
    if b.messages != [] && !a.dryRun && isGit then [CommitOf(b, text, CommitWords(a.msg, words))] else []
  }

  /** `Bump.run`: the outcome, and the word count it leaves in the configuration.
      `isGit` tells a git checkout from a svn one; the other parameters are as in the
      current generation. */
  function Plan(inRepository: bool, isGit: bool, a: BumpArgs, files: seq<string>, b: Bumped, text: string,
                commitRaises: bool, branch: Option<string>, words: nat): (Outcome, nat)
  {
    if !inRepository then (NotInRepository, words)
    else if Committed(a, b, isGit, text, words) != [] && commitRaises then
      (Raised(Start(files) + Committed(a, b, isGit, text, words) + [Reverse]), CommitWords(a.msg, words))
    else
      (Done(Start(files) + Committed(a, b, isGit, text, words) + AfterBump(a, b, isGit, branch),
            if b.messages == [] then None else Some(text)),
       CommitWords(a.msg, words))
  }

  /** `Bump.run` over the configuration it changes. */
  method Run(cfg: CommitConfig, inRepository: bool, isGit: bool, a: BumpArgs, configured: string, b: Bumped,
             commitRaises: bool, branch: Option<string>) returns (o: Outcome)
    modifies cfg
    ensures (o, cfg.autoBranchWords) == Plan(inRepository, isGit, a, RequirementFiles(a.file, configured), b,
      CommitMessage(Values(b.messages), a.msg), commitRaises, branch, old(cfg.autoBranchWords))
  {
    var text := "";
    if b.messages != [] {
      text := ComposeCommitMessage(Values(b.messages), a.msg);
    }
    o := Proceed(cfg, inRepository, isGit, a, RequirementFiles(a.file, configured), b, text, commitRaises, branch);
  }

  /** The steps of `Bump.run` once the commit message `text` is composed. */
  method Proceed(cfg: CommitConfig, inRepository: bool, isGit: bool, a: BumpArgs, files: seq<string>, b: Bumped,
                 text: string, commitRaises: bool, branch: Option<string>) returns (o: Outcome)
    modifies cfg
    ensures (o, cfg.autoBranchWords) == Plan(inRepository, isGit, a, files, b, text, commitRaises, branch, old(cfg.autoBranchWords))
  {
    if !inRepository {
      return NotInRepository;
    }
    var actions := [Update];
    if !WsUpdate.Given(a.msg) {
      cfg.autoBranchWords := 1;
    }
    actions := actions + [RunBumper(files)];
    var commitMsg: Option<string> := None;
    if b.messages != [] {
      commitMsg := Some(text);
      if !a.dryRun && isGit {
        actions := actions + [Commit(text, Files(b.messages), cfg.autoBranchWords)];
        if commitRaises {
          assert actions == Start(files) + Committed(a, b, isGit, text, old(cfg.autoBranchWords));
          return Raised(actions + [Reverse]);
        }
      }
    }
    assert actions == Start(files) + Committed(a, b, isGit, text, old(cfg.autoBranchWords));
    var after: seq<Action> := [];
    if b.hasBumps {
      if a.test > 0 {
        after := after + [Test(a.test > 1)];
      }
      if !a.dryRun && a.push && isGit {
        after := after + [Push(branch)];
      }
    }
    assert after == AfterBump(a, b, isGit, branch);
    o := Done(actions + after, commitMsg);
  }

  /** The actions after the commit: the revert when the commit raised, else what
      follows the bump. */
  function Tail(o: Outcome, a: BumpArgs, b: Bumped, isGit: bool, branch: Option<string>): seq<Action>
  {
    if o.Raised? then [Reverse] else AfterBump(a, b, isGit, branch)
  }

  lemma PlanParts(inRepository: bool, isGit: bool, a: BumpArgs, files: seq<string>, b: Bumped, text: string,
                  commitRaises: bool, branch: Option<string>, words: nat)
    requires inRepository
    ensures var (o, _) := Plan(inRepository, isGit, a, files, b, text, commitRaises, branch, words);
      o.actions == Start(files) + Committed(a, b, isGit, text, words) + Tail(o, a, b, isGit, branch)
  {
  }

  lemma NoCommitAfterBump(a: BumpArgs, b: Bumped, isGit: bool, branch: Option<string>)
    ensures forall i :: 0 <= i < |AfterBump(a, b, isGit, branch)| ==> !AfterBump(a, b, isGit, branch)[i].Commit?
    ensures !Commits(AfterBump(a, b, isGit, branch))
  {
  }

  /** A commit happens exactly when the bumper has messages, it is not a dry run and
      the checkout is git; the commit message is returned whenever there are messages,
      in a svn checkout too. */
  lemma CommitWhen(inRepository: bool, isGit: bool, a: BumpArgs, files: seq<string>, b: Bumped, text: string,
                   commitRaises: bool, branch: Option<string>, words: nat)
    ensures var (o, _) := Plan(inRepository, isGit, a, files, b, text, commitRaises, branch, words);
      && (!o.NotInRepository? ==> (Commits(o.actions) <==> b.messages != [] && !a.dryRun && isGit))
      && (o.Done? ==> (o.commitMsg.Some? <==> b.messages != []))
  {
    var (o, _) := Plan(inRepository, isGit, a, files, b, text, commitRaises, branch, words);
    if inRepository {
      PlanParts(inRepository, isGit, a, files, b, text, commitRaises, branch, words);
      var start, commit, tail := Start(files), Committed(a, b, isGit, text, words), Tail(o, a, b, isGit, branch);
      NoCommitAfterBump(a, b, isGit, branch);
      assert !Commits(tail);
      assert !Commits(start);
      assert Commits(commit) <==> b.messages != [] && !a.dryRun && isGit by {
        if commit != [] { assert commit[0].Commit?; }
      }
      CommitsAppend(start, commit);
      CommitsAppend(start + commit, tail);
    }
  }

  /** The commit carries the composed message, the bumped files, and a word count of 1
      unless the user gave a message. */
  lemma CommitCarries(inRepository: bool, isGit: bool, a: BumpArgs, files: seq<string>, b: Bumped, text: string,
                      commitRaises: bool, branch: Option<string>, words: nat)
    ensures var (o, _) := Plan(inRepository, isGit, a, files, b, text, commitRaises, branch, words);
      !o.NotInRepository? ==> forall i :: 0 <= i < |o.actions| && o.actions[i].Commit? ==>
        o.actions[i] == CommitOf(b, text, CommitWords(a.msg, words))
  {
    var (o, _) := Plan(inRepository, isGit, a, files, b, text, commitRaises, branch, words);
    if inRepository {
      PlanParts(inRepository, isGit, a, files, b, text, commitRaises, branch, words);
      NoCommitAfterBump(a, b, isGit, branch);
      OnlyCommit(Start(files), Committed(a, b, isGit, text, words), Tail(o, a, b, isGit, branch),
        CommitOf(b, text, CommitWords(a.msg, words)));
    }
  }

  lemma PushLast(a: BumpArgs, b: Bumped, isGit: bool, branch: Option<string>)
    ensures var tail := AfterBump(a, b, isGit, branch);
      && (Push(branch) in tail <==> b.hasBumps && !a.dryRun && a.push && isGit)
      && (Push(branch) in tail ==> tail[|tail| - 1] == Push(branch))
  {
  }

  /** The push happens exactly when something was bumped, it is not a dry run, `--push`
      is set, the checkout is git and the commit did not raise; it pushes the current
      branch last. */
  lemma PushWhen(inRepository: bool, isGit: bool, a: BumpArgs, files: seq<string>, b: Bumped, text: string,
                 commitRaises: bool, branch: Option<string>, words: nat)
    ensures var (o, _) := Plan(inRepository, isGit, a, files, b, text, commitRaises, branch, words);
      && (o.Raised? ==> Push(branch) !in o.actions && o.actions[|o.actions| - 1] == Reverse)
      && (o.Done? ==> (Push(branch) in o.actions <==> b.hasBumps && !a.dryRun && a.push && isGit))
      && (o.Done? && Push(branch) in o.actions ==> o.actions[|o.actions| - 1] == Push(branch))
  {
    var (o, _) := Plan(inRepository, isGit, a, files, b, text, commitRaises, branch, words);
    if inRepository {
      PlanParts(inRepository, isGit, a, files, b, text, commitRaises, branch, words);
      PushLast(a, b, isGit, branch);
      PushAtEnd(Start(files) + Committed(a, b, isGit, text, words), Tail(o, a, b, isGit, branch), Push(branch));
    }
  }

  /** In a checkout and without a user message the word count is left at 1, whatever
      happens next; a given message leaves it as it was. */
  lemma WordsLeft(inRepository: bool, isGit: bool, a: BumpArgs, files: seq<string>, b: Bumped, text: string,
                  commitRaises: bool, branch: Option<string>, words: nat)
    ensures var (_, w) := Plan(inRepository, isGit, a, files, b, text, commitRaises, branch, words);
      && (inRepository && !WsUpdate.Given(a.msg) ==> w == 1)
      && (!inRepository || WsUpdate.Given(a.msg) ==> w == words)
  {
  }

  /** In a svn checkout nothing is committed or pushed: the run is the update, the
      bump, and the tests when asked. */
  lemma SvnNeverCommits(a: BumpArgs, files: seq<string>, b: Bumped, text: string, commitRaises: bool,
                        branch: Option<string>, words: nat)
    ensures var (o, _) := Plan(true, false, a, files, b, text, commitRaises, branch, words);
      o == Done(Start(files) + (if b.hasBumps && a.test > 0 then [Test(a.test > 1)] else []),
                if b.messages == [] then None else Some(text))
  {
    var (o, _) := Plan(true, false, a, files, b, text, commitRaises, branch, words);
    assert Committed(a, b, false, text, words) == [];
    assert Start(files) + [] == Start(files);
    if !b.hasBumps || a.test == 0 {
      assert AfterBump(a, b, false, branch) == [];
    }
  }
}
