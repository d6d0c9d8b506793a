// What `wst bump` does around the external bumper in both generations
// (workspace/commands/bump.py and src/workspace/commands/bump.py, whose code here is
// the same): the choice of requirement files and the commit message built from the
// bump messages.
module Bump {
  import opened Wrappers
  import opened Text
  import WsUpdate

  // ---------------------------------------------------------------------------
  // Requirement files

  /** The `file` argument: a list, one name, or nothing (None and "" are both falsy). */
  datatype FileArg = FileList(files: seq<string>) | FileName(name: string) | NoFile

  /** The files to bump: a list as it is, one name as a list of one, otherwise the
      configured `bump.requirement_files` split at whitespace. */
  function RequirementFiles(file: FileArg, configured: string): (r: seq<string>)
    ensures file.FileList? ==> r == file.files
    ensures file.FileName? && file.name != "" ==> r == [file.name]
  {
    match file
    case FileList(files) => files
    case FileName(name) => if name != "" then [name] else Words(Strip(configured))
    case NoFile => Words(Strip(configured))
  }

  /** Splitting the configured value finds only names: none is empty or holds
      whitespace. */
  lemma ConfiguredNames(configured: string)
    ensures var r := RequirementFiles(NoFile, configured);
      forall k :: 0 <= k < |r| ==> |r[k]| > 0 && NoWhitespace(r[k])
  {
    WordsHaveNoWhitespace(Strip(configured));
  }

  // ---------------------------------------------------------------------------
  // The commit message

  /** `m.split('\n', 1)`: the first line, and the rest when there is a line break. */
  function SplitFirst(m: string): (string, Option<string>)
  {
    match FindFrom(m, "\n", 0)
    case None => (m, None)
    case Some(i) => (m[..i], Some(m[i + 1..]))
  }

  /** The first line holds no line break, and the message is the first line, then a
      line break and the rest when there is one. */
  lemma SplitFirstMeaning(m: string)
    ensures var (summary, detail) := SplitFirst(m);
      && '\n' !in summary
      && m == summary + (if detail.Some? then "\n" + detail.value else "")
      && (detail.None? <==> '\n' !in m)
  {
    match FindFrom(m, "\n", 0)
    case None =>
      CharFree(m, '\n');
    case Some(i) =>
      assert m[i..i + 1] == "\n";
      forall j | 0 <= j < i ensures m[..i][j] != '\n' {
        assert !OccursAt(m, "\n", j);
        assert m[j..j + 1] == [m[j]];
      }
      assert m == m[..i] + "\n" + m[i + 1..];
  }

  /** The first lines of the messages, in order. */
  function Summaries(ms: seq<string>): (r: seq<string>)
    ensures |r| == |ms|
  {
    if ms == [] then [] else Summaries(ms[..|ms| - 1]) + [SplitFirst(ms[|ms| - 1]).0]
  }

  /** The rest of every message with more than one line, in order. */
  function Details(ms: seq<string>): (r: seq<string>)
    ensures |r| <= |ms|
  {
    if ms == [] then []
    else
      var d := SplitFirst(ms[|ms| - 1]).1;
      Details(ms[..|ms| - 1]) + (if d.Some? then [d.value] else [])
  }

  /** The user's message and a blank line, when one was given. */
  function Lead(msg: Option<string>): string
  {
    if WsUpdate.Given(msg) then msg.value + "\n\n" else ""
  }

  /** The paragraphs of the commit message: the first lines of the messages, then the
      rest of each, separated by blank lines, after the user's message. */
  function Paragraphs(ms: seq<string>, msg: Option<string>): string
  {
    Lead(msg) + Join("\n\n", Summaries(ms) + Details(ms))
  }

  /** The commit message: the paragraphs of the sorted bump messages. */
  function CommitMessage(values: seq<string>, msg: Option<string>): string
  {
    Paragraphs(Sorted(values), msg)
  }

  /** The commit message composed as `Bump.run` does: one split per sorted message. */
  method ComposeCommitMessage(values: seq<string>, msg: Option<string>) returns (commitMsg: string)
    ensures commitMsg == CommitMessage(values, msg)
  {
    var sorted := Sorted(values);
    var summaryMsgs: seq<string> := [];
    var detailMsgs: seq<string> := [];
    for k := 0 to |sorted|
      invariant summaryMsgs == Summaries(sorted[..k])
      invariant detailMsgs == Details(sorted[..k])
    {
      assert sorted[..k + 1][..k] == sorted[..k];
      var splits := SplitFirst(sorted[k]);
      summaryMsgs := summaryMsgs + [splits.0];
      if splits.1.Some? {
        detailMsgs := detailMsgs + [splits.1.value];
      }
    }
    assert sorted[..|sorted|] == sorted;
    commitMsg := Join("\n\n", summaryMsgs + detailMsgs);
    if WsUpdate.Given(msg) {
      commitMsg := msg.value + "\n\n" + commitMsg;
    }
  }

  /** Single-line messages have no rest, and are their own first lines. */
  lemma {:induction false} SingleLines(ms: seq<string>)
    requires forall i :: 0 <= i < |ms| ==> '\n' !in ms[i]
    ensures Summaries(ms) == ms && Details(ms) == []
    decreases |ms|
  {
    if ms != [] {
      var prefix, last := ms[..|ms| - 1], ms[|ms| - 1];
      SingleLine(last);
      assert forall i :: 0 <= i < |prefix| ==> prefix[i] == ms[i];
      SingleLines(prefix);
      assert Summaries(ms) == Summaries(prefix) + [last];
      assert Details(ms) == Details(prefix) + [];
      assert ms == prefix + [last];
    }
  }

  lemma SingleLine(m: string)
    requires '\n' !in m
    ensures SplitFirst(m) == (m, None)
  {
    SplitFirstMeaning(m);
  }

  /** When every message is one line, reading the commit message back paragraph by
      paragraph gives the user's message and then the bump messages, sorted. */
  lemma SingleLineReadBack(values: seq<string>, msg: Option<string>)
    requires values != [] && forall i :: 0 <= i < |values| ==> '\n' !in values[i]
    requires WsUpdate.Given(msg) ==> '\n' !in msg.value
    ensures Split(CommitMessage(values, msg), "\n\n") == (if WsUpdate.Given(msg) then [msg.value] else []) + Sorted(values)
  {
    var sorted := Sorted(values);
    forall i | 0 <= i < |sorted| ensures '\n' !in sorted[i] {
      assert sorted[i] in multiset(values);
    }
    ParagraphsReadBack(sorted, msg);
  }

  lemma ParagraphsReadBack(ms: seq<string>, msg: Option<string>)
    requires ms != [] && forall i :: 0 <= i < |ms| ==> '\n' !in ms[i]
    requires WsUpdate.Given(msg) ==> '\n' !in msg.value
    ensures Split(Paragraphs(ms, msg), "\n\n") == (if WsUpdate.Given(msg) then [msg.value] else []) + ms
  {
    SingleLines(ms);
    assert Summaries(ms) + Details(ms) == ms;
    var ps := (if WsUpdate.Given(msg) then [msg.value] else []) + ms;
    forall i | 0 <= i < |ps| ensures "\n\n"[0] !in ps[i] {
      if WsUpdate.Given(msg) && i > 0 {
        assert ps[i] == ms[i - 1];
      }
    }
    if WsUpdate.Given(msg) {
      assert ps[1..] == ms;
      assert Paragraphs(ms, msg) == Join("\n\n", ps);
    } else {
      assert ps == ms;
      assert Paragraphs(ms, msg) == "" + Join("\n\n", ms);
    }
    assert Paragraphs(ms, msg) == Join("\n\n", ps);
    JoinSplitLead(ps, "\n\n");
    assert Split(Join("\n\n", ps), "\n\n") == ps;
  }

  /** The layout of the commit message: the user's message, the block of first lines,
      then the block of the rests when there is one; one first line per bump message. */
  lemma CommitMessageLayout(values: seq<string>, msg: Option<string>)
    requires values != []
    ensures var sorted := Sorted(values);
      var details := Details(sorted);
      && |Summaries(sorted)| == |values|
      && CommitMessage(values, msg) == Lead(msg) + Join("\n\n", Summaries(sorted))
           + (if details == [] then "" else "\n\n" + Join("\n\n", details))
  {
    ParagraphsLayout(Sorted(values), msg);
  }

  lemma ParagraphsLayout(ms: seq<string>, msg: Option<string>)
    requires ms != []
    ensures var details := Details(ms);
      Paragraphs(ms, msg) == Lead(msg) + Join("\n\n", Summaries(ms))
        + (if details == [] then "" else "\n\n" + Join("\n\n", details))
  {
    var details := Details(ms);
    if details == [] {
      assert Summaries(ms) + details == Summaries(ms);
    } else {
      JoinAppend(Summaries(ms), details, "\n\n");
    }
  }

  /** Every line break in a bump message survives into the commit message: the
      message is recovered from its first line and its rest. */
  lemma MessageRecovered(values: seq<string>, i: nat)
    requires i < |values|
    ensures var sorted := Sorted(values);
      var (summary, detail) := SplitFirst(sorted[i]);
      Summaries(sorted)[i] == summary
      && sorted[i] == summary + (if detail.Some? then "\n" + detail.value else "")
  {
    var sorted := Sorted(values);
    SummaryAt(sorted, i);
    SplitFirstMeaning(sorted[i]);
  }

  lemma {:induction false} SummaryAt(ms: seq<string>, i: nat)
    requires i < |ms|
    ensures Summaries(ms)[i] == SplitFirst(ms[i]).0
    decreases |ms|
  {
    if i < |ms| - 1 {
      SummaryAt(ms[..|ms| - 1], i);
    }
  }

  // ---------------------------------------------------------------------------
  // The run

  /** `config.commit.auto_branch_from_commit_words`, which `wst commit` reads when it
      names a branch after the message. */
  class CommitConfig {
    var autoBranchWords: nat

    constructor(words: nat)
      ensures autoBranchWords == words
    {
      autoBranchWords := words;
    }
  }

  /** What `Bump.run` asks of the tools around it, in order. */
  datatype Action =
    | Update                                             // `update`
    | RunBumper(files: seq<string>)                      // the external bumper on these files
    | Commit(msg: string, files: seq<string>, words: nat) // `commit`, with the word count it sees
    | Reverse                                            // `bumper.reverse()` after a failed commit
    | Test(dependents: bool)                             // `test`
    | Push(branch: Option<string>)                       // `push` of the current branch

  /** The arguments that matter here. */
  datatype BumpArgs = BumpArgs(msg: Option<string>, file: FileArg, dryRun: bool, test: nat, push: bool)

  /** What the bumper returns: its messages by file, in order, and whether it bumped. */
  datatype Bumped = Bumped(messages: seq<(string, string)>, hasBumps: bool)

  datatype Outcome =
    | NotInRepository                                // `repo_check`: exit 1
    | Raised(actions: seq<Action>)                   // the commit raised; the bump is reversed
    | Done(actions: seq<Action>, commitMsg: Option<string>)

  function Files(messages: seq<(string, string)>): (r: seq<string>)
    ensures |r| == |messages| && forall i :: 0 <= i < |r| ==> r[i] == messages[i].0
  {
    seq(|messages|, i requires 0 <= i < |messages| => messages[i].0)
  }

  function Values(messages: seq<(string, string)>): (r: seq<string>)
    ensures |r| == |messages| && forall i :: 0 <= i < |r| ==> r[i] == messages[i].1
  {
    seq(|messages|, i requires 0 <= i < |messages| => messages[i].1)
  }

  /** The commit `Bump.run` makes of the bumped files, under the composed message
      `text`. */
  function CommitOf(b: Bumped, text: string, words: nat): Action
  {
    Commit(text, Files(b.messages), words)
  }

  /** The message-less commit made with an explicit word count of 1. */
  function CommitWords(msg: Option<string>, words: nat): nat
  {
    if WsUpdate.Given(msg) then words else 1
  }

  /** The update and the bumper run, which every run in a checkout starts with. */
  function Start(files: seq<string>): seq<Action>
  {
    [Update, RunBumper(files)]
  }

  /** Some action is a commit. */
  predicate Commits(actions: seq<Action>)
  {
    exists i :: 0 <= i < |actions| && actions[i].Commit?
  }

  lemma CommitsAppend(x: seq<Action>, y: seq<Action>)
    ensures Commits(x + y) <==> Commits(x) || Commits(y)
  {
    if Commits(x) {
      var i :| 0 <= i < |x| && x[i].Commit?;
      assert (x + y)[i] == x[i];
    }
    if Commits(x + y) {
      var i :| 0 <= i < |x + y| && (x + y)[i].Commit?;
      if i >= |x| {
        assert (x + y)[i] == y[i - |x|];
      } else {
        assert (x + y)[i] == x[i];
      }
    }
    if Commits(y) {
      var i :| 0 <= i < |y| && y[i].Commit?;
      assert (x + y)[|x| + i] == y[i];
    }
  }

  /** A commit between actions that are not commits is the only commit. */
  lemma OnlyCommit(start: seq<Action>, commit: seq<Action>, tail: seq<Action>, c: Action)
    requires forall k :: 0 <= k < |start| ==> !start[k].Commit?
    requires forall k :: 0 <= k < |commit| ==> commit[k] == c
    requires forall k :: 0 <= k < |tail| ==> !tail[k].Commit?
    ensures forall i :: 0 <= i < |start + commit + tail| && (start + commit + tail)[i].Commit? ==> (start + commit + tail)[i] == c
  {
  }

  /** A push after actions that are not pushes is in the tail, and the tail ends the
      whole. */
  lemma PushAtEnd(head: seq<Action>, tail: seq<Action>, p: Action)
    requires p.Push? && forall k :: 0 <= k < |head| ==> !head[k].Push?
    ensures p in head + tail <==> p in tail
    ensures tail != [] ==> (head + tail)[|head + tail| - 1] == tail[|tail| - 1]
  {
    if p in head + tail {
      var k :| 0 <= k < |head + tail| && (head + tail)[k] == p;
      if k >= |head| {
        assert tail[k - |head|] == p;
      }
    }
  }
}
