// `wst publish` of the older generation (src/workspace/commands/publish.py): every
// message since the last publish, a numbered changelog, and the publish flow.
module LegacyPublish {
  import opened Wrappers
  import opened Text
  import CommitLog
  import LegacyScm
  import WsPublish
  import VersionBump

  // ---------------------------------------------------------------------------
  // `changes_since_last_publish`

  /** The changes: every message newer than the newest publish, with no filter. */
  function Changes(msgs: seq<string>): seq<string>
  {
    msgs[..WsPublish.PublishIndex(msgs)]
  }

  /** The messages of the newest 100 commits, read with the checkout's kind's reader. */
  function LogMessages(log: string, isGit: bool): seq<string>
  {
    CommitLog.Messages(log, if isGit then CommitLog.Indented else CommitLog.NotSvnHeader, isGit)
  }

  /** `changes_since_last_publish()` on the output of `commit_logs(limit=100)`. */
  method ChangesSinceLastPublish(log: string, isGit: bool) returns (changes: seq<string>)
    ensures changes == Changes(LogMessages(log, isGit))
  {
    var msgs := LegacyScm.ExtractCommitMsgs(log, isGit);
    changes := [];
    var k := 0;
    while k < |msgs|
      invariant k <= |msgs|
      invariant forall j :: 0 <= j < k ==> !WsPublish.IsPublish(msgs[j])
      invariant changes == msgs[..k]
    {
      if WsPublish.IsPublish(msgs[k]) {
        break;
      }
      changes := changes + [msgs[k]];
      k := k + 1;
    }
    WsPublish.PublishIndexAtOrEnd(msgs, k);
  }

  /** The changes are the messages before the newest publish, all of them, in order. */
  lemma ChangesMeaning(newer: seq<string>, older: seq<string>)
    requires forall j :: 0 <= j < |newer| ==> !WsPublish.IsPublish(newer[j])
    requires older == [] || WsPublish.IsPublish(older[0])
    ensures Changes(newer + older) == newer
  {
    var msgs := newer + older;
    if older == [] {
      assert msgs == newer;
      WsPublish.PublishIndexAtOrEnd(msgs, |msgs|);
    } else {
      assert msgs[|newer|] == older[0];
      WsPublish.PublishIndexAtOrEnd(msgs, |newer|);
    }
    assert msgs[..|newer|] == newer;
  }

  // ---------------------------------------------------------------------------
  // `update_changelog`

  /** The indentation of the continuation lines of entry `n`: as wide as "`n`. ". */
  function Indent(n: nat): string
  {
    "\n" + Repeat(' ', |NatToString(n)| + 2)
  }

  /** Entry `n`: "`n`. ", the change with its line breaks indented, and a blank line. */
  function Entry(n: nat, change: string): string
  {
    NatToString(n) + ". " + ReplaceAll(change, "\n", Indent(n)) + "\n\n"
  }

  /** The entries numbered from `first` on. */
  function EntriesText(changes: seq<string>, first: nat): string
  {
    if changes == [] then ""
    else EntriesText(changes[..|changes| - 1], first) + Entry(first + |changes| - 1, changes[|changes| - 1])
  }

  /** What `update_changelog` leaves in `docs/CHANGELOG.rst`, and whether it raised. */
  datatype Written = Written(text: string, error: Option<string>)

  /** The code as written: with a prior changelog, the call `existing_changes.repliace`
      raises AttributeError once the header, the entries and a blank line are written;
      the prior text is lost. */
  function ChangelogAsWritten(version: string, changes: seq<string>, existing: string): (w: Written)
  {
    var text := WsPublish.Header(version) + EntriesText(changes, 1);
    if existing == "" then Written(text, None)
    else Written(text + "\n", Some("AttributeError"))
  }

  /** The changelog as intended: the prior text follows a blank line with every major
      title demoted to a minor one. */
  function Changelog(version: string, changes: seq<string>, existing: string): (w: Written)
  {
    var text := WsPublish.Header(version) + EntriesText(changes, 1);
    if existing == "" then Written(text, None)
    else Written(text + "\n" + ReplaceAll(existing, WsPublish.MajorTitle, WsPublish.MinorTitle), None)
  }

  /** `update_changelog(new_version, changes)`, as written. */
  method UpdateChangelogAsWritten(version: string, changes: seq<string>, existing: string)
    returns (w: Written)
    ensures w == ChangelogAsWritten(version, changes, existing)
  {
    var text := WriteEntries(version, changes);
    if existing != "" {
      text := text + "\n";
      return Written(text, Some("AttributeError"));
    }
    w := Written(text, None);
  }

  /** `update_changelog(new_version, changes)`, with `replace` in place of `repliace`. */
  method UpdateChangelog(version: string, changes: seq<string>, existing: string)
    returns (w: Written)
    ensures w == Changelog(version, changes, existing)
  {
    var text := WriteEntries(version, changes);
    if existing != "" {
      text := text + "\n";
      text := text + ReplaceAll(existing, WsPublish.MajorTitle, WsPublish.MinorTitle);
    }
    w := Written(text, None);
  }

  /** The header and the numbered entries, written one after the other. */
  method WriteEntries(version: string, changes: seq<string>) returns (text: string)
    ensures text == WsPublish.Header(version) + EntriesText(changes, 1)
  {
    text := "Version " + version + "\n";
    text := text + WsPublish.MajorTitle + "\n\n";
    var i := 0;
    while i < |changes|
      invariant i <= |changes|
      invariant text == WsPublish.Header(version) + EntriesText(changes[..i], 1)
    {
      var num := i + 1;
      var indentSpaces := "\n" + Repeat(' ', |NatToString(num)| + 2);
      WriteStep(version, changes, i, text);
      text := text + NatToString(num) + ". " + ReplaceAll(changes[i], "\n", indentSpaces) + "\n\n";
      i := i + 1;
    }
    assert changes[..i] == changes;
  }

  /** Writing the pieces of the next entry one after the other extends the text by
      that entry. */
  lemma WriteStep(version: string, changes: seq<string>, i: nat, text: string)
    requires i < |changes| && text == WsPublish.Header(version) + EntriesText(changes[..i], 1)
    ensures text + NatToString(i + 1) + ". " + ReplaceAll(changes[i], "\n", Indent(i + 1)) + "\n\n"
            == WsPublish.Header(version) + EntriesText(changes[..i + 1], 1)
  {
    var header, before, e := WsPublish.Header(version), EntriesText(changes[..i], 1), Entry(i + 1, changes[i]);
    EntryAppended(text, i + 1, changes[i]);
    assert changes[..i + 1] == changes[..i] + [changes[i]];
    EntriesExtend(changes[..i], changes[i], 1);
    AppendAssoc(header, before, e);
  }

  lemma EntryAppended(text: string, n: nat, change: string)
    ensures text + NatToString(n) + ". " + ReplaceAll(change, "\n", Indent(n)) + "\n\n" == text + Entry(n, change)
  {
  }

  /** Entry `n` can be read back: its number, then the change once the indentation is
      undone. */
  lemma EntryRoundTrip(n: nat, change: string)
    ensures var e := Entry(n, change);
      var w := |NatToString(n)|;
      && |e| >= w + 4
      && ParseNat(e[..w]) == Some(n)
      && e[w..w + 2] == ". " && EndsWith(e, "\n\n")
      && ReplaceAll(e[w + 2..|e| - 2], Indent(n), "\n") == change
  {
    var e := Entry(n, change);
    var digits := NatToString(n);
    var body := ReplaceAll(change, "\n", Indent(n));
    assert e == digits + ". " + body + "\n\n";
    assert e[..|digits|] == digits;
    assert e[|digits|..|digits| + 2] == ". ";
    assert e[|digits| + 2..|e| - 2] == body;
    assert e[|e| - 2..] == "\n\n";
    ParseNatToString(n);
    IndentRoundTrip(change, |digits| + 2);
  }

  /** The entries are the changes, numbered in order: entry text `k` follows the text
      of the entries before it. */
  lemma EntriesExtend(changes: seq<string>, change: string, first: nat)
    ensures EntriesText(changes + [change], first) == EntriesText(changes, first) + Entry(first + |changes|, change)
  {
    assert (changes + [change])[..|changes|] == changes;
  }

  /** The corrected changelog keeps the whole prior text, with no major title left in
      it; the one as written keeps none of it and raises. */
  lemma PriorTextKept(version: string, changes: seq<string>, existing: string)
    requires existing != ""
    ensures var w := Changelog(version, changes, existing);
      && w.error.None?
      && StartsWith(w.text, WsPublish.Header(version) + EntriesText(changes, 1) + "\n")
      && !Contains(w.text[|WsPublish.Header(version) + EntriesText(changes, 1) + "\n"|..], WsPublish.MajorTitle)
    ensures var w := ChangelogAsWritten(version, changes, existing);
      w.error == Some("AttributeError") && w.text == WsPublish.Header(version) + EntriesText(changes, 1) + "\n"
  {
    var pre := WsPublish.Header(version) + EntriesText(changes, 1) + "\n";
    var rest := ReplaceAll(existing, WsPublish.MajorTitle, WsPublish.MinorTitle);
    var w := Changelog(version, changes, existing);
    assert w.text == pre + rest;
    assert w.text[..|pre|] == pre;
    assert w.text[|pre|..] == rest;
    DemotedHasNoMajorTitle(existing);
  }

  /** Demoting every major title leaves none: a minor title holds no '='. */
  lemma DemotedHasNoMajorTitle(s: string)
    ensures !Contains(ReplaceAll(s, WsPublish.MajorTitle, WsPublish.MinorTitle), WsPublish.MajorTitle)
  {
    assert WsPublish.MajorTitle[0] == '=';
    assert forall j :: 0 <= j < |WsPublish.MinorTitle| ==> WsPublish.MinorTitle[j] != WsPublish.MajorTitle[0];
    ReplaceAllRemoves(s, WsPublish.MajorTitle, WsPublish.MinorTitle);
  }

  // ---------------------------------------------------------------------------
  // `publish`

  datatype Outcome =
    | NotInRepository                        // `repo_check`: exit 1
    | UpdateRaised                           // `update(raises=True)` re-raised a failure
    | NothingToPublish                       // no changes: exit 0
    | BumpStopped(bump: VersionBump.Outcome) // the bump ended the run
    | ChangelogRaised(version: string, setup: string, changelog: string, error: string)
    | Published(version: string, setup: string, changelog: string, commitMsg: string)

  /** The flow up to the release commit, given the changelog writer: `updated` is
      whether `update(raises=True)` returned, `changes` what
      `changes_since_last_publish` returns, `segs` the text of `setup.py` and
      `existing` the prior changelog. The commit is made with `push=True`. */
  function RunWith(asWritten: bool, inRepository: bool, updated: bool, minor: bool, major: bool,
                   changes: seq<string>, setupExists: bool, segs: seq<VersionBump.Segment>, existing: string): Outcome
  {
    if !inRepository then NotInRepository
    else if !updated then UpdateRaised
    else if changes == [] then NothingToPublish
    else
      match VersionBump.BumpVersion(setupExists, segs, VersionBump.BumpIndex(minor, major))
      case Bumped(content, v) =>
        var w := if asWritten then ChangelogAsWritten(v, changes, existing) else Changelog(v, changes, existing);
        if w.error.Some? then ChangelogRaised(v, content, w.text, w.error.value)
        else Published(v, content, w.text, WsPublish.PublishVersionPrefix + v)
      case other => BumpStopped(other)
  }

  /** As written, every release after the first stops at the changelog: the version is
      bumped but the release is never committed, so the next publish lists the same
      changes again. With the corrected changelog it is committed. */
  lemma SecondReleaseNeverCommitted(minor: bool, major: bool, changes: seq<string>,
                                    setupExists: bool, segs: seq<VersionBump.Segment>, existing: string)
    requires existing != "" && changes != []
    requires VersionBump.BumpVersion(setupExists, segs, VersionBump.BumpIndex(minor, major)).Bumped?
    ensures RunWith(true, true, true, minor, major, changes, setupExists, segs, existing).ChangelogRaised?
    ensures RunWith(false, true, true, minor, major, changes, setupExists, segs, existing).Published?
  {
  }

  /** The corrected flow: nothing is done without changes; a release commits under a
      message the next publish stops at, and its changelog opens with its title. */
  lemma RunMeaning(inRepository: bool, updated: bool, minor: bool, major: bool, changes: seq<string>,
                   setupExists: bool, segs: seq<VersionBump.Segment>, existing: string, older: seq<string>)
    ensures var r := RunWith(false, inRepository, updated, minor, major, changes, setupExists, segs, existing);
      && !r.ChangelogRaised?
      && (r.Published? ==>
        && inRepository && updated && changes != []
        && VersionBump.BumpVersion(setupExists, segs, VersionBump.BumpIndex(minor, major)) == VersionBump.Bumped(r.setup, r.version)
        && StartsWith(r.changelog, WsPublish.Header(r.version))
        && r.commitMsg == WsPublish.PublishVersionPrefix + r.version
        && Changes([r.commitMsg] + older) == [])
  {
    var r := RunWith(false, inRepository, updated, minor, major, changes, setupExists, segs, existing);
    if r.Published? {
      ReleaseCommitted(r.version, changes, existing, older);
    }
  }

  /** The changelog of a release opens with its title, and its commit is where the
      next publish stops collecting changes. */
  lemma ReleaseCommitted(version: string, changes: seq<string>, existing: string, older: seq<string>)
    ensures StartsWith(Changelog(version, changes, existing).text, WsPublish.Header(version))
    ensures Changes([WsPublish.PublishVersionPrefix + version] + older) == []
  {
    var h := WsPublish.Header(version);
    var w := Changelog(version, changes, existing);
    assert w.text == h + w.text[|h|..];
    var msg := WsPublish.PublishVersionPrefix + version;
    WsPublish.ReleaseIsPublish(version);
    ChangesMeaning([], [msg] + older);
    assert [] + ([msg] + older) == [msg] + older;
  }
}
