// Commit messages out of `git log` / `svn log` text, shared by both generations of
// the SCM adapter: non-empty lines are either message lines (collected) or header
// lines (which close the message collected so far).
module CommitLog {
  import opened Text

  /** Which lines of the log are message lines. */
  datatype Classifier =
    | Indented        // git: the line starts with a space
    | NotSvnHeader    // svn: the line is not a separator/revision header

  predicate AllIn(s: string, chars: set<char>)
  {
    |s| > 0 && forall i :: 0 <= i < |s| ==> s[i] in chars
  }

  /** Number of leading decimal digits. */
  function DigitRun(s: string): (n: nat)
    ensures n <= |s| && (n < |s| ==> !IsDigit(s[n]))
    ensures forall i :: 0 <= i < n ==> IsDigit(s[i])
  {
    if s != [] && IsDigit(s[0]) then 1 + DigitRun(s[1..]) else 0
  }

  /** `\slines?$` at the end of `s`, with the whitespace at index `from` or later. */
  predicate EndsWithLines(s: string, from: nat)
  {
    (EndsWith(s, "line") && |s| >= from + 5 && s[|s| - 5] in Whitespace)
    || (EndsWith(s, "lines") && |s| >= from + 6 && s[|s| - 6] in Whitespace)
  }

  /** `r\d+\s.*\slines?`, anchored at both ends. */
  predicate RevisionHeader(s: string)
  {
    |s| > 0 && s[0] == 'r'
    && var d := DigitRun(s[1..]);
       d > 0 && 1 + d < |s| && s[1 + d] in Whitespace && EndsWithLines(s, 2 + d)
  }

  /** `^(-+|r\d+\s.*\slines?|\s+)$`: the separator and header lines of `svn log`. */
  predicate SvnHeader(s: string)
  {
    AllIn(s, {'-'}) || RevisionHeader(s) || AllIn(s, Whitespace)
  }

  predicate IsMessage(kind: Classifier, line: string)
  {
    match kind
    case Indented => StartsWith(line, " ")
    case NotSvnHeader => !SvnHeader(line)
  }

  /** Git indents message lines by four spaces; that indent is removed. */
  function Dedent(line: string, dedent: bool): (r: string)
    ensures dedent && StartsWith(line, "    ") ==> line == "    " + r
    ensures !(dedent && StartsWith(line, "    ")) ==> r == line
  {
    if dedent && StartsWith(line, "    ") then line[4..] else line
  }

  /** The messages closed so far and the lines of the one being collected. */
  datatype Scan = Scan(msgs: seq<string>, msg: seq<string>)

  function Close(st: Scan): seq<string>
  {
    if st.msg != [] then st.msgs + [Join("\n", st.msg)] else st.msgs
  }

  /** One line of the log. */
  function Feed(st: Scan, line: string, kind: Classifier, dedent: bool): Scan
  {
    if line == "" then st
    else if IsMessage(kind, line) then Scan(st.msgs, st.msg + [Dedent(line, dedent)])
    else if st.msg != [] then Scan(Close(st), [])
    else st
  }

  function FeedAll(st: Scan, lines: seq<string>, kind: Classifier, dedent: bool): Scan
    decreases |lines|
  {
    if lines == [] then st else FeedAll(Feed(st, lines[0], kind, dedent), lines[1..], kind, dedent)
  }

  function MessagesOfLines(lines: seq<string>, kind: Classifier, dedent: bool): seq<string>
  {
    Close(FeedAll(Scan([], []), lines, kind, dedent))
  }

  /** `extract_commit_msgs(output)`: an empty output has no messages. */
  function Messages(output: string, kind: Classifier, dedent: bool): seq<string>
  {
    if output == "" then [] else MessagesOfLines(Split(output, "\n"), kind, dedent)
  }

  /** The non-empty lines, each with its indent removed. */
  function Body(lines: seq<string>, dedent: bool): seq<string>
  {
    if lines == [] then []
    else (if lines[0] == "" then [] else [Dedent(lines[0], dedent)]) + Body(lines[1..], dedent)
  }

  predicate AllMessageLines(lines: seq<string>, kind: Classifier)
  {
    forall i :: 0 <= i < |lines| ==> lines[i] == "" || IsMessage(kind, lines[i])
  }

  lemma {:induction false} FeedAllAppend(st: Scan, a: seq<string>, b: seq<string>, kind: Classifier, dedent: bool)
    ensures FeedAll(st, a + b, kind, dedent) == FeedAll(FeedAll(st, a, kind, dedent), b, kind, dedent)
    decreases |a|
  {
    if a == [] {
      assert a + b == b;
    } else {
      assert (a + b)[0] == a[0] && (a + b)[1..] == a[1..] + b;
      FeedAllAppend(Feed(st, a[0], kind, dedent), a[1..], b, kind, dedent);
    }
  }

  /** Message lines only extend the message being collected. */
  lemma {:induction false} FeedRun(st: Scan, r: seq<string>, kind: Classifier, dedent: bool)
    requires AllMessageLines(r, kind)
    ensures FeedAll(st, r, kind, dedent) == Scan(st.msgs, st.msg + Body(r, dedent))
    decreases |r|
  {
    if r != [] {
      var next := Feed(st, r[0], kind, dedent);
      assert AllMessageLines(r[1..], kind) by {
        forall i | 0 <= i < |r[1..]| ensures r[1..][i] == "" || IsMessage(kind, r[1..][i]) {
          assert r[1..][i] == r[i + 1];
        }
      }
      FeedRun(next, r[1..], kind, dedent);
      assert next.msg + Body(r[1..], dedent) == st.msg + Body(r, dedent);
    }
  }

  /** Messages only ever get appended, whatever came before. */
  lemma {:induction false} FeedAllKeepsClosed(m: seq<string>, p: seq<string>, lines: seq<string>, kind: Classifier, dedent: bool)
    ensures FeedAll(Scan(m, p), lines, kind, dedent).msgs == m + FeedAll(Scan([], p), lines, kind, dedent).msgs
    ensures FeedAll(Scan(m, p), lines, kind, dedent).msg == FeedAll(Scan([], p), lines, kind, dedent).msg
    decreases |lines|
  {
    if lines == [] {
    } else {
      var l := lines[0];
      var a := Feed(Scan(m, p), l, kind, dedent);
      var b := Feed(Scan([], p), l, kind, dedent);
      assert a.msgs == m + b.msgs && a.msg == b.msg;
      FeedAllKeepsClosed(a.msgs, a.msg, lines[1..], kind, dedent);
      FeedAllKeepsClosed(b.msgs, b.msg, lines[1..], kind, dedent);
      assert (m + b.msgs) + FeedAll(Scan([], a.msg), lines[1..], kind, dedent).msgs
          == m + (b.msgs + FeedAll(Scan([], a.msg), lines[1..], kind, dedent).msgs);
    }
  }

  /** A run of message lines (empty lines allowed) with at least one non-empty line is
      exactly one message: its lines, indents removed, joined by newlines. */
  lemma RunIsOneMessage(r: seq<string>, kind: Classifier, dedent: bool)
    requires AllMessageLines(r, kind) && Body(r, dedent) != []
    ensures MessagesOfLines(r, kind, dedent) == [Join("\n", Body(r, dedent))]
  {
    FeedRun(Scan([], []), r, kind, dedent);
    assert [] + Body(r, dedent) == Body(r, dedent);
  }

  /** A header line between two stretches of the log separates their messages. */
  lemma SeparatorSplits(a: seq<string>, h: string, b: seq<string>, kind: Classifier, dedent: bool)
    requires h != "" && !IsMessage(kind, h)
    ensures MessagesOfLines(a + [h] + b, kind, dedent)
         == MessagesOfLines(a, kind, dedent) + MessagesOfLines(b, kind, dedent)
  {
    var sa := FeedAll(Scan([], []), a, kind, dedent);
    FeedAllAppend(Scan([], []), a, [h] + b, kind, dedent);
    assert a + [h] + b == a + ([h] + b);
    assert ([h] + b)[0] == h && ([h] + b)[1..] == b;
    var sh := Feed(sa, h, kind, dedent);
    assert sh == Scan(Close(sa), []);
    FeedAllKeepsClosed(Close(sa), [], b, kind, dedent);
  }

  /** `extract_commit_msgs`: the loop over the lines of the output. */
  method ExtractCommitMsgs(output: string, kind: Classifier, dedent: bool) returns (msgs: seq<string>)
    ensures msgs == Messages(output, kind, dedent)
  {
    msgs := [];
    if output != "" {
      var msg: seq<string> := [];
      var lines := Split(output, "\n");
      var i := 0;
      while i < |lines|
        invariant 0 <= i <= |lines|
        invariant FeedAll(Scan(msgs, msg), lines[i..], kind, dedent) == FeedAll(Scan([], []), lines, kind, dedent)
      {
        var line := lines[i];
        assert lines[i..][1..] == lines[i + 1..];
        if line == "" {
        } else if IsMessage(kind, line) {
          msg := msg + [Dedent(line, dedent)];
        } else if msg != [] {
          msgs := msgs + [Join("\n", msg)];
          msg := [];
        }
        i := i + 1;
      }
      if msg != [] {
        msgs := msgs + [Join("\n", msg)];
      }
    }
  }
}
