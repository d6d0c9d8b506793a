// `wst publish` (workspace/commands/publish.py): the changes since the last publish,
// the changelog text, and the flow that bumps the version and commits the release.
module WsPublish {
  import opened Wrappers
  import opened Text
  import CommitLog
  import WsScm
  import VersionBump

  const PublishVersionPrefix := "Publish version "
  const MajorTitle := Repeat('=', 80)
  const MinorTitle := Repeat('-', 80)

  // ---------------------------------------------------------------------------
  // `changes_since_last_publish`

  predicate IsPublish(msg: string) { StartsWith(msg, PublishVersionPrefix) }

  /** A change worth listing: at least 7 characters and not matched by the ignore
      pattern, `IGNORE_CHANGE_RE`, which is given as the predicate `ignored`. */
  predicate Significant(msg: string, ignored: string -> bool)
  {
    |msg| >= 7 && !ignored(msg)
  }

  /** The index of the newest publish message, or the number of messages. */
  function PublishIndex(msgs: seq<string>): (k: nat)
    ensures k <= |msgs|
    ensures forall j :: 0 <= j < k ==> !IsPublish(msgs[j])
    ensures k < |msgs| ==> IsPublish(msgs[k])
  {
    if msgs == [] || IsPublish(msgs[0]) then 0 else 1 + PublishIndex(msgs[1..])
  }

  /** The significant messages, in their order. */
  function Kept(msgs: seq<string>, ignored: string -> bool): seq<string>
  {
    if msgs == [] then []
    else
      var last := msgs[|msgs| - 1];
      Kept(msgs[..|msgs| - 1], ignored) + (if Significant(last, ignored) then [last] else [])
  }

  /** A message is kept exactly when it is one of the messages and significant. */
  lemma {:induction false} KeptMembers(msgs: seq<string>, ignored: string -> bool, x: string)
    ensures x in Kept(msgs, ignored) <==> x in msgs && Significant(x, ignored)
  {
    if msgs != [] {
      var init := msgs[..|msgs| - 1];
      KeptMembers(init, ignored, x);
      assert msgs == init + [msgs[|msgs| - 1]];
    }
  }

  lemma KeptExtend(msgs: seq<string>, x: string, ignored: string -> bool)
    ensures Kept(msgs + [x], ignored) == Kept(msgs, ignored) + (if Significant(x, ignored) then [x] else [])
  {
    assert (msgs + [x])[..|msgs|] == msgs;
  }

  lemma KeptStep(msgs: seq<string>, k: nat, ignored: string -> bool)
    requires k < |msgs|
    ensures Kept(msgs[..k + 1], ignored) == Kept(msgs[..k], ignored) + (if Significant(msgs[k], ignored) then [msgs[k]] else [])
  {
    assert msgs[..k + 1] == msgs[..k] + [msgs[k]];
    KeptExtend(msgs[..k], msgs[k], ignored);
  }

  /** The changes: the significant messages newer than the newest publish. */
  function Changes(msgs: seq<string>, ignored: string -> bool): seq<string>
  {
    Kept(msgs[..PublishIndex(msgs)], ignored)
  }

  /** `changes_since_last_publish()` on the output of `git log -100`. */
  method ChangesSinceLastPublish(log: string, ignored: string -> bool) returns (changes: seq<string>)
    ensures changes == Changes(CommitLog.Messages(log, CommitLog.Indented, true), ignored)
  {
    var msgs := WsScm.ExtractCommitMsgs(log, true);
    changes := [];
    var k := 0;
    while k < |msgs|
      invariant k <= |msgs|
      invariant forall j :: 0 <= j < k ==> !IsPublish(msgs[j])
      invariant changes == Kept(msgs[..k], ignored)
    {
      if IsPublish(msgs[k]) {
        break;
      }
      var msg := msgs[k];
      KeptStep(msgs, k, ignored);
      if |msg| < 7 || ignored(msg) {
        k := k + 1;
        continue;
      }
      changes := changes + [msg];
      k := k + 1;
    }
    PublishIndexAtOrEnd(msgs, k);
  }

  /** A change is listed exactly when it is significant and newer than every publish. */
  lemma ChangesMeaning(msgs: seq<string>, ignored: string -> bool, x: string)
    ensures x in Changes(msgs, ignored) <==>
      exists j :: 0 <= j < |msgs| && msgs[j] == x && Significant(x, ignored) && forall k :: 0 <= k <= j ==> !IsPublish(msgs[k])
  {
    var p := PublishIndex(msgs);
    KeptMembers(msgs[..p], ignored, x);
    if x in Changes(msgs, ignored) {
      var j :| 0 <= j < p && msgs[..p][j] == x;
      assert msgs[j] == x;
    }
    if exists j :: 0 <= j < |msgs| && msgs[j] == x && Significant(x, ignored) && forall k :: 0 <= k <= j ==> !IsPublish(msgs[k]) {
      var j :| 0 <= j < |msgs| && msgs[j] == x && Significant(x, ignored) && forall k :: 0 <= k <= j ==> !IsPublish(msgs[k]);
      assert j < p;
      assert msgs[..p][j] == x;
    }
  }

  /** The release commit is a boundary: the next publish lists only the messages
      newer than it. */
  lemma ReleaseIsBoundary(newer: seq<string>, version: string, older: seq<string>, ignored: string -> bool)
    requires forall j :: 0 <= j < |newer| ==> !IsPublish(newer[j])
    ensures Changes(newer + [PublishVersionPrefix + version] + older, ignored) == Kept(newer, ignored)
  {
    var msgs := newer + [PublishVersionPrefix + version] + older;
    ReleaseIsPublish(version);
    PublishIndexAtOrEnd(msgs, |newer|);
    assert msgs[..|newer|] == newer;
  }

  /** The first publish message is at `k`, or there is none and `k` is the end. */
  lemma PublishIndexAtOrEnd(msgs: seq<string>, k: nat)
    requires k <= |msgs| && (k < |msgs| ==> IsPublish(msgs[k])) && forall j :: 0 <= j < k ==> !IsPublish(msgs[j])
    ensures PublishIndex(msgs) == k
  {
  }

  /** A release commit's message is a publish message. */
  lemma ReleaseIsPublish(version: string)
    ensures IsPublish(PublishVersionPrefix + version)
  {
    assert (PublishVersionPrefix + version)[..|PublishVersionPrefix|] == PublishVersionPrefix;
  }

  // ---------------------------------------------------------------------------
  // `update_changelog`

  function Header(version: string): string
  {
    "Version " + version + "\n" + MajorTitle + "\n\n"
  }

  /** A change as a bullet, its line breaks indented by two spaces. */
  function Entry(change: string): string
  {
    "* " + ReplaceAll(change, "\n", "\n  ") + "\n"
  }

  function EntriesText(changes: seq<string>): string
  {
    if changes == [] then "" else EntriesText(changes[..|changes| - 1]) + Entry(changes[|changes| - 1])
  }

  /** The prior changelog after a blank line, its first major title demoted unless the
      release is minor or major; nothing when there is no prior text. */
  function Tail(existing: string, skipTitleChange: bool): string
  {
    if existing == "" then ""
    else "\n" + (if skipTitleChange then existing else ReplaceFirst(existing, MajorTitle, MinorTitle))
  }

  function Changelog(version: string, changes: seq<string>, existing: string, skipTitleChange: bool): string
  {
    Header(version) + EntriesText(changes) + Tail(existing, skipTitleChange)
  }

  /** `update_changelog(new_version, changes, skip_title_change)`: the text written to
      `docs/CHANGELOG.rst`; `existing` is its prior text ("" when there is none). */
  method UpdateChangelog(version: string, changes: seq<string>, existing: string, skipTitleChange: bool)
    returns (text: string)
    ensures text == Changelog(version, changes, existing, skipTitleChange)
  {
    text := "Version " + version + "\n";
    text := text + MajorTitle + "\n\n";
    var k := 0;
    while k < |changes|
      invariant k <= |changes|
      invariant text == Header(version) + EntriesText(changes[..k])
    {
      var line := "* " + ReplaceAll(changes[k], "\n", "\n  ") + "\n";
      EntriesStep(changes, k);
      AppendAssoc(Header(version), EntriesText(changes[..k]), line);
      text := text + line;
      k := k + 1;
    }
    assert changes[..k] == changes;
    if existing != "" {
      text := text + "\n";
      var prior := existing;
      if !skipTitleChange {
        prior := ReplaceFirst(existing, MajorTitle, MinorTitle);
      }
      text := text + prior;
    }
  }

  lemma EntriesStep(changes: seq<string>, k: nat)
    requires k < |changes|
    ensures EntriesText(changes[..k + 1]) == EntriesText(changes[..k]) + Entry(changes[k])
  {
    assert changes[..k + 1][..k] == changes[..k];
  }

  /** Each change can be read back from its bullet by undoing the indentation. */
  lemma EntryRoundTrip(change: string)
    ensures var e := Entry(change);
      && StartsWith(e, "* ") && EndsWith(e, "\n")
      && ReplaceAll(e[2..|e| - 1], "\n  ", "\n") == change
  {
    var e := Entry(change);
    assert "\n" + Repeat(' ', 2) == "\n  ";
    assert e[2..|e| - 1] == ReplaceAll(change, "\n", "\n" + Repeat(' ', 2));
    IndentRoundTrip(change, 2);
  }

  /** The new changelog opens with the release's title and ends with the prior text,
      kept as it was for a minor or major release. */
  lemma ChangelogLayout(version: string, changes: seq<string>, existing: string, skipTitleChange: bool)
    ensures var c := Changelog(version, changes, existing, skipTitleChange);
      && StartsWith(c, "Version " + version + "\n" + MajorTitle)
      && (existing == "" ==> c == Header(version) + EntriesText(changes))
      && (existing != "" && skipTitleChange ==> EndsWith(c, "\n" + existing))
  {
    var c := Changelog(version, changes, existing, skipTitleChange);
    var h := "Version " + version + "\n" + MajorTitle;
    var e, t := EntriesText(changes), Tail(existing, skipTitleChange);
    assert Header(version) == h + "\n\n";
    AppendAssoc(h, "\n\n", e);
    AppendAssoc(h, "\n\n" + e, t);
    assert c == h + ("\n\n" + e + t);
    assert c[..|h|] == h;
    if existing != "" && skipTitleChange {
      var pre := Header(version) + e;
      assert c == pre + ("\n" + existing);
      assert c[|pre|..] == "\n" + existing;
    }
  }

  /** A patch release demotes exactly the title of the previous release, which this
      function wrote at the top of the prior changelog. */
  lemma PreviousTitleDemoted(previous: string, rest: string)
    requires '=' !in previous
    ensures var prior := "Version " + previous + "\n" + MajorTitle + rest;
      ReplaceFirst(prior, MajorTitle, MinorTitle) == "Version " + previous + "\n" + MinorTitle + rest
  {
    var line := "Version " + previous + "\n";
    var prior := line + MajorTitle + rest;
    assert OccursAt(prior, MajorTitle, |line|) by {
      assert prior[|line|..|line| + 80] == MajorTitle;
    }
    forall j | 0 <= j < |line| ensures !OccursAt(prior, MajorTitle, j) {
      assert prior[j] == line[j];
      assert line[j] != '=' by {
        if j >= 8 { assert line[j] == (previous + "\n")[j - 8]; }
      }
      if j + 80 <= |prior| {
        assert prior[j..j + 80][0] == prior[j];
      }
    }
    FindFromFirst(prior, MajorTitle, 0, |line|);
    assert prior[..|line|] == line;
    assert prior[|line| + 80..] == rest;
  }

  // ---------------------------------------------------------------------------
  // `Publish.run`

  datatype Outcome =
    | FlagConflict                                   // `--minor` with `--major`: logged, nothing done
    | NoRepository                                   // no [pypi] repository configured: exit 1
    | NothingToPublish                               // no changes: exit 0
    | BumpStopped(bump: VersionBump.Outcome)         // the bump ended the run
    | Published(version: string, setup: string, changelog: string, commitMsg: string)

  /** The run up to the release commit: `changes` are those `changes_since_last_publish`
      returns, `segs` the text of `setup.py` and `existing` the prior changelog. The
      commit is made with `push=True`; building and uploading follow. */
  function Run(minor: bool, major: bool, hasRepository: bool, changes: seq<string>,
               setupExists: bool, segs: seq<VersionBump.Segment>, existing: string): Outcome
  {
    if minor && major then FlagConflict
    else if !hasRepository then NoRepository
    else if changes == [] then NothingToPublish
    else
      match VersionBump.BumpVersion(setupExists, segs, VersionBump.BumpIndex(minor, major))
      case Bumped(content, v) =>
        Published(v, content, Changelog(v, changes, existing, minor || major), PublishVersionPrefix + v)
      case other => BumpStopped(other)
  }

  /** `--minor` with `--major` does nothing; without changes nothing is bumped; a
      release bumps the chosen part, lists the changes and is committed under a
      message that the next publish stops at. */
  lemma RunMeaning(minor: bool, major: bool, hasRepository: bool, changes: seq<string>,
                   setupExists: bool, segs: seq<VersionBump.Segment>, existing: string, older: seq<string>, ignored: string -> bool)
    ensures minor && major ==> Run(minor, major, hasRepository, changes, setupExists, segs, existing) == FlagConflict
    ensures var r := Run(minor, major, hasRepository, changes, setupExists, segs, existing);
      r.Published? ==>
        && changes != [] && !(minor && major)
        && VersionBump.BumpVersion(setupExists, segs, VersionBump.BumpIndex(minor, major)) == VersionBump.Bumped(r.setup, r.version)
        && StartsWith(r.changelog, "Version " + r.version + "\n")
        && r.commitMsg == PublishVersionPrefix + r.version
        && Changes([r.commitMsg] + older, ignored) == []
  {
    var r := Run(minor, major, hasRepository, changes, setupExists, segs, existing);
    if r.Published? {
      ChangelogLayout(r.version, changes, existing, minor || major);
      var h := "Version " + r.version + "\n";
      assert (h + MajorTitle)[..|h|] == h;
      ReleaseIsBoundary([], r.version, older, ignored);
      assert [] + [r.commitMsg] + older == [r.commitMsg] + older;
    }
  }
}
