// `wst bump` of the current generation (workspace/commands/bump.py): update, bump
// through the external bumper, commit the bump under a composed message, test, push.
module WsBump {
  import opened Wrappers
  import opened Bump
  import WsUpdate

  /** What follows the bump when something was bumped: the tests, then the push. */
  function AfterBump(a: BumpArgs, b: Bumped, branch: Option<string>): seq<Action>
  {
    if !b.hasBumps then []
    else (if a.test > 0 then [Test(a.test > 1)] else []) + (if !a.dryRun && a.push then [Push(branch)] else [])
  }

  /** The commit: made when the bumper has messages and it is not a dry run, with a
      word count of 1 unless the user gave a message. */
  function Committed(a: BumpArgs, b: Bumped, text: string, words: nat): seq<Action>
  {
    if b.messages != [] && !a.dryRun then [CommitOf(b, text, CommitWords(a.msg, words))] else []
  }

  /** The commit message `Bump.run` returns. */
  function CommitMsgOf(b: Bumped, text: string): Option<string>
  {
    if b.messages == [] then None else Some(text)
  }

  /** The word count left in the configuration: set to 1 for a message-less commit,
      then restored to 2 once the commit returns. */
  function WordsAfter(a: BumpArgs, b: Bumped, words: nat): nat
  {
    if b.messages == [] then words else if a.dryRun then CommitWords(a.msg, words) else 2
  }

  /** `Bump.run`: the outcome, and the word count it leaves in the configuration.
      `files` are the requirement files chosen, `b` what the bumper returns, `text`
      the commit message composed from its messages, `commitRaises` whether the
      commit raises, `branch` the current branch. */
  function Plan(inRepository: bool, a: BumpArgs, files: seq<string>, b: Bumped, text: string, commitRaises: bool,
                branch: Option<string>, words: nat): (Outcome, nat)
  {
    if !inRepository then (NotInRepository, words)
    else if Committed(a, b, text, words) != [] && commitRaises then
      (Raised(Start(files) + Committed(a, b, text, words) + [Reverse]), CommitWords(a.msg, words))
    else
      (Done(Start(files) + Committed(a, b, text, words) + AfterBump(a, b, branch), CommitMsgOf(b, text)), WordsAfter(a, b, words))
  }

  /** `Bump.run` over the configuration it changes. */
  method Run(cfg: CommitConfig, inRepository: bool, a: BumpArgs, configured: string, b: Bumped,
             commitRaises: bool, branch: Option<string>) returns (o: Outcome)
    modifies cfg
    ensures (o, cfg.autoBranchWords) == Plan(inRepository, a, RequirementFiles(a.file, configured), b,
      CommitMessage(Values(b.messages), a.msg), commitRaises, branch, old(cfg.autoBranchWords))
  {
    var text := "";
    if b.messages != [] {
      text := ComposeCommitMessage(Values(b.messages), a.msg);
    }
    o := Proceed(cfg, inRepository, a, RequirementFiles(a.file, configured), b, text, commitRaises, branch);
  }

  /** The steps of `Bump.run` once the commit message `text` is composed. */
  method Proceed(cfg: CommitConfig, inRepository: bool, a: BumpArgs, files: seq<string>, b: Bumped,
                 text: string, commitRaises: bool, branch: Option<string>) returns (o: Outcome)
    modifies cfg
    ensures (o, cfg.autoBranchWords) == Plan(inRepository, a, files, b, text, commitRaises, branch, old(cfg.autoBranchWords))
  {
    if !inRepository {
      return NotInRepository;
    }
    var actions := [Update, RunBumper(files)];
    var commitMsg: Option<string> := None;
    if b.messages != [] {
      commitMsg := Some(text);
      if !WsUpdate.Given(a.msg) {
        cfg.autoBranchWords := 1;
      }
      if !a.dryRun {
        actions := actions + [Commit(text, Files(b.messages), cfg.autoBranchWords)];
        if commitRaises {
          return Raised(actions + [Reverse]);
        }
        cfg.autoBranchWords := 2;
      }
    }
    assert actions == Start(files) + Committed(a, b, text, old(cfg.autoBranchWords));
    var after: seq<Action> := [];
    if b.hasBumps {
      if a.test > 0 {
        after := after + [Test(a.test > 1)];
      }
      if !a.dryRun && a.push {
        after := after + [Push(branch)];
      }
    }
    assert after == AfterBump(a, b, branch);
    o := Done(actions + after, commitMsg);
  }

  /** The actions after the commit: the revert when the commit raised, else what
      follows the bump. */
  function Tail(o: Outcome, a: BumpArgs, b: Bumped, branch: Option<string>): seq<Action>
  {
    if o.Raised? then [Reverse] else AfterBump(a, b, branch)
  }

  lemma PlanParts(inRepository: bool, a: BumpArgs, files: seq<string>, b: Bumped, text: string, commitRaises: bool,
                  branch: Option<string>, words: nat)
    requires inRepository
    ensures var (o, _) := Plan(inRepository, a, files, b, text, commitRaises, branch, words);
      o.actions == Start(files) + Committed(a, b, text, words) + Tail(o, a, b, branch)
  {
  }

  /** A commit happens exactly when the bumper has messages and it is not a dry run;
      the commit message is returned whenever there are messages, a dry run included. */
  lemma CommitWhen(inRepository: bool, a: BumpArgs, files: seq<string>, b: Bumped, text: string, commitRaises: bool,
                   branch: Option<string>, words: nat)
    ensures var (o, _) := Plan(inRepository, a, files, b, text, commitRaises, branch, words);
      && (!o.NotInRepository? ==> (Commits(o.actions) <==> b.messages != [] && !a.dryRun))
      && (o.Done? ==> (o.commitMsg.Some? <==> b.messages != []))
  {
    var (o, _) := Plan(inRepository, a, files, b, text, commitRaises, branch, words);
    if inRepository {
      PlanParts(inRepository, a, files, b, text, commitRaises, branch, words);
      var start, commit, tail := Start(files), Committed(a, b, text, words), Tail(o, a, b, branch);
      NoCommitAfterBump(a, b, branch);
      assert !Commits(tail);
      assert !Commits(start);
      assert Commits(commit) <==> b.messages != [] && !a.dryRun by {
        if commit != [] { assert commit[0].Commit?; }
      }
      CommitsAppend(start, commit);
      CommitsAppend(start + commit, tail);
    }
  }

  /** The commit carries the composed message, the bumped files, and a word count of 1
      unless the user gave a message. */
  lemma CommitCarries(inRepository: bool, a: BumpArgs, files: seq<string>, b: Bumped, text: string, commitRaises: bool,
                      branch: Option<string>, words: nat)
    ensures var (o, _) := Plan(inRepository, a, files, b, text, commitRaises, branch, words);
      !o.NotInRepository? ==> forall i :: 0 <= i < |o.actions| && o.actions[i].Commit? ==>
        o.actions[i] == CommitOf(b, text, CommitWords(a.msg, words))
  {
    var (o, _) := Plan(inRepository, a, files, b, text, commitRaises, branch, words);
    if inRepository {
      PlanParts(inRepository, a, files, b, text, commitRaises, branch, words);
      NoCommitAfterBump(a, b, branch);
      OnlyCommit(Start(files), Committed(a, b, text, words), Tail(o, a, b, branch), CommitOf(b, text, CommitWords(a.msg, words)));
    }
  }

  lemma NoCommitAfterBump(a: BumpArgs, b: Bumped, branch: Option<string>)
    ensures forall i :: 0 <= i < |AfterBump(a, b, branch)| ==> !AfterBump(a, b, branch)[i].Commit?
    ensures !Commits(AfterBump(a, b, branch))
  {
  }

  /** The push happens exactly when something was bumped, it is not a dry run, `--push`
      is set and the commit did not raise; it pushes the current branch last. */
  lemma PushWhen(inRepository: bool, a: BumpArgs, files: seq<string>, b: Bumped, text: string, commitRaises: bool,
                 branch: Option<string>, words: nat)
    ensures var (o, _) := Plan(inRepository, a, files, b, text, commitRaises, branch, words);
      && (o.Raised? ==> Push(branch) !in o.actions && o.actions[|o.actions| - 1] == Reverse)
      && (o.Done? ==> (Push(branch) in o.actions <==> b.hasBumps && !a.dryRun && a.push))
      && (o.Done? && Push(branch) in o.actions ==> o.actions[|o.actions| - 1] == Push(branch))
  {
    var (o, _) := Plan(inRepository, a, files, b, text, commitRaises, branch, words);
    if inRepository {
      PlanParts(inRepository, a, files, b, text, commitRaises, branch, words);
      PushLast(a, b, branch);
      PushAtEnd(Start(files) + Committed(a, b, text, words), Tail(o, a, b, branch), Push(branch));
    }
  }

  lemma PushLast(a: BumpArgs, b: Bumped, branch: Option<string>)
    ensures var tail := AfterBump(a, b, branch);
      && (Push(branch) in tail <==> b.hasBumps && !a.dryRun && a.push)
      && (Push(branch) in tail ==> tail[|tail| - 1] == Push(branch))
  {
  }

  /** Without a user message the word count is 1 during the commit and 2 after it,
      whatever it was before; it stays 1 after a dry run; it is untouched when there
      is nothing to commit. */
  lemma WordsLeft(inRepository: bool, a: BumpArgs, files: seq<string>, b: Bumped, text: string, commitRaises: bool,
                  branch: Option<string>, words: nat)
    ensures var (o, w) := Plan(inRepository, a, files, b, text, commitRaises, branch, words);
      && (b.messages == [] || !inRepository ==> w == words)
      && (o.Done? && Commits(o.actions) ==> w == 2)
      && (inRepository && b.messages != [] && (a.dryRun || commitRaises) ==> w == CommitWords(a.msg, words))
  {
    CommitWhen(inRepository, a, files, b, text, commitRaises, branch, words);
  }

  /** Up to date: no messages and no bumps leave only the update and the bumper run,
      and no commit message. */
  lemma UpToDate(a: BumpArgs, files: seq<string>, text: string, commitRaises: bool, branch: Option<string>, words: nat)
    ensures Plan(true, a, files, Bumped([], false), text, commitRaises, branch, words)
      == (Done([Update, RunBumper(files)], None), words)
  {
    var start := Start(files);
    assert start + [] + [] == start;
  }
}
