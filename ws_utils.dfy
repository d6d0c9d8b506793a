// workspace/utils.py: the walk up to the nearest directory passing a check, the text of
// the commit-message editor and how its content is read back, and the once-only fork of
// `run_in_background`. The editor itself, the file system and the process calls are
// inputs or left out.
module WsUtils {
  import opened Wrappers
  import opened Text
  import opened PathSearch
  import SetupScript

  /** `parent_path_with`: `/` gives up, an empty path means the working directory, a
      path passing `check` is the answer, and otherwise its `dirname` is tried. */
  function ParentPathWith(check: string -> bool, path: string, cwd: string): Search
    requires Absolute(cwd)
    decreases Rank(path).0, Rank(path).1
  {
    if path == "/" then NotFound
    else
      var p := Start(path, cwd);
      if check(p) then Found(p)
      else
        var next := Dirname(p);
        DirnameStep(p);
        if next == p && p != "/" then Unending else ParentPathWith(check, next, cwd)
  }

  /** The first element of a list that passes a check. */
  function FirstIn(t: seq<string>, check: string -> bool): Option<string>
  {
    if t == [] then None else if check(t[0]) then Some(t[0]) else FirstIn(t[1..], check)
  }

  lemma {:induction false} FirstInMeaning(t: seq<string>, check: string -> bool)
    ensures FirstIn(t, check).Some? <==> exists i :: 0 <= i < |t| && check(t[i])
    ensures FirstIn(t, check).Some? ==> exists i :: 0 <= i < |t| && t[i] == FirstIn(t, check).value && check(t[i])
                                         && forall j :: 0 <= j < i ==> !check(t[j])
    decreases |t|
  {
    if t != [] && !check(t[0]) {
      var rest := t[1..];
      FirstInMeaning(rest, check);
      if FirstIn(rest, check).Some? {
        var i :| 0 <= i < |rest| && rest[i] == FirstIn(rest, check).value && check(rest[i])
          && forall j :: 0 <= j < i ==> !check(rest[j]);
        assert t[i + 1] == rest[i];
        forall j | 0 <= j < i + 1 ensures !check(t[j]) {
          if j > 0 { assert t[j] == rest[j - 1]; }
        }
      }
      if exists i :: 0 <= i < |t| && check(t[i]) {
        var i :| 0 <= i < |t| && check(t[i]);
        assert rest[i - 1] == t[i];
      }
    }
  }

  /** The search is the walk's first passing path; without one it gives up at `/`, or
      never when the walk loops. */
  lemma {:induction false} SearchIsWalk(check: string -> bool, path: string, cwd: string)
    requires Absolute(cwd)
    ensures ParentPathWith(check, path, cwd) ==
      match FirstIn(Trail(path, cwd), check)
      case Some(q) => Found(q)
      case None => if Loops(path, cwd) then Unending else NotFound
    decreases Rank(path).0, Rank(path).1
  {
    if path != "/" {
      var p := Start(path, cwd);
      var next := Dirname(p);
      DirnameStep(p);
      if !check(p) && !(next == p && p != "/") {
        SearchIsWalk(check, next, cwd);
        assert Trail(path, cwd)[1..] == Trail(next, cwd);
      }
    }
  }

  /** The search returns the first path of the walk that passes the check; it gives up
      only when none does, at `/` or never. */
  lemma FirstPassing(check: string -> bool, path: string, cwd: string)
    requires Absolute(cwd)
    ensures var t := Trail(path, cwd);
      var r := ParentPathWith(check, path, cwd);
      && (r.Found? <==> exists i :: 0 <= i < |t| && check(t[i]))
      && (r.Found? ==> exists i :: 0 <= i < |t| && t[i] == r.path && check(t[i])
                                  && forall j :: 0 <= j < i ==> !check(t[j]))
      && (r.NotFound? <==> (forall i :: 0 <= i < |t| ==> !check(t[i])) && !Loops(path, cwd))
      && (r.Unending? <==> (forall i :: 0 <= i < |t| ==> !check(t[i])) && Loops(path, cwd))
  {
    SearchIsWalk(check, path, cwd);
    FirstInMeaning(Trail(path, cwd), check);
  }

  /** A path found passes the check and is an ancestor of, or the same as, where the
      search starts; from a relative path it may also be an ancestor of the working
      directory. */
  lemma FoundAncestor(check: string -> bool, path: string, cwd: string)
    requires Absolute(cwd)
    ensures var r := ParentPathWith(check, path, cwd);
      r.Found? ==> check(r.path) && (StartsWith(Start(path, cwd), r.path) || (!Absolute(path) && StartsWith(cwd, r.path)))
  {
    FirstPassing(check, path, cwd);
    TrailAncestors(path, cwd);
  }

  /** Searching from a path that does not start with `//`, with a working directory that
      has one leading slash, always ends. */
  lemma SearchEnds(check: string -> bool, path: string, cwd: string)
    requires Rooted(cwd) && !StartsWith(path, "//")
    ensures !ParentPathWith(check, path, cwd).Unending?
  {
    FirstPassing(check, path, cwd);
    RootedEnds(path, cwd);
  }

  /** `parent_path_with_dir`: the nearest path holding `directory`, with `isDir` standing
      for `os.path.isdir`. */
  function ParentPathWithDir(isDir: string -> bool, directory: string, path: string, cwd: string): Search
    requires Absolute(cwd)
  {
    ParentPathWith(p => isDir(PathJoin(p, directory)), path, cwd)
  }

  /** The editor file: two empty lines, then each line of the instruction as a comment. */
  function EditorText(instruction: string): string
  {
    "\n\n# " + Join("\n# ", Split(instruction, "\n"))
  }

  predicate Uncommented(line: string) { !StartsWith(line, "#") }

  /** What `prompt_with_editor` returns for the edited file: the lines not starting with
      `#`, joined and stripped. */
  function Response(content: string): string
  {
    Strip(Join("\n", SetupScript.Filter(Split(content, "\n"), Uncommented)))
  }

  /** A message typed above the instruction comes back stripped, provided none of its
      lines starts with `#`; an untouched file gives the empty message. */
  lemma ResponseRecoversMessage(message: string, instruction: string)
    requires forall i :: 0 <= i < |Split(message, "\n")| ==> Uncommented(Split(message, "\n")[i])
    ensures Response(message + EditorText(instruction)) == Strip(message)
    ensures Response(EditorText(instruction)) == ""
  {
    Recovered(message, instruction);
    UntouchedRecovered(instruction);
  }

  /** How the temporary file is opened; `NamedTemporaryFile` without a `mode` opens it
      as `w+b`. */
  datatype FileMode = BinaryMode | TextMode

  const WrittenMode := BinaryMode

  /** `prompt_with_editor`, with `edit` standing for the editor: it maps the file as
      written to the file as saved. Writing a `str` to a binary-mode file raises
      TypeError before the editor starts. */
  function PromptWithEditor(mode: FileMode, instruction: string, edit: string -> string): Result<string>
  {
    if mode == BinaryMode then Err("TypeError")
    else Ok(Response(edit(EditorText(instruction))))
  }

  /** As written, the prompt never returns: whatever the instruction and whatever the
      user would type, it raises TypeError. */
  lemma PromptRaises(instruction: string, edit: string -> string)
    ensures PromptWithEditor(WrittenMode, instruction, edit) == Err("TypeError")
    ensures forall message :: PromptWithEditor(WrittenMode, instruction, c => message + c) != Ok(Strip(message))
  {
  }

  /** With a text-mode file, a message typed above the instruction comes back stripped,
      and an untouched file gives the empty message, which cancels the commit. */
  lemma PromptRecoversMessage(message: string, instruction: string)
    requires forall i :: 0 <= i < |Split(message, "\n")| ==> Uncommented(Split(message, "\n")[i])
    ensures PromptWithEditor(TextMode, instruction, c => message + c) == Ok(Strip(message))
    ensures PromptWithEditor(TextMode, instruction, c => c) == Ok("")
  {
    ResponseRecoversMessage(message, instruction);
  }

  lemma UntouchedRecovered(instruction: string)
    ensures Response(EditorText(instruction)) == ""
  {
    assert Split("", "\n") == [""] by {
      assert FindFrom("", "\n", 0) == None;
    }
    Recovered("", instruction);
    assert "" + EditorText(instruction) == EditorText(instruction);
    assert Strip("") == "";
  }

  lemma Recovered(message: string, instruction: string)
    requires forall i :: 0 <= i < |Split(message, "\n")| ==> Uncommented(Split(message, "\n")[i])
    ensures Response(message + EditorText(instruction)) == Strip(message)
  {
    var ms := Split(message, "\n");
    KeptLines(message, instruction);
    JoinAppend(ms, [""], "\n");
    SplitJoin(message, "\n");
    assert Join("\n", ms + [""]) == message + "\n";
    StripNewline(message);
  }

  /** The lines kept from the edited file: the message's, then an empty one. */
  lemma KeptLines(message: string, instruction: string)
    requires forall i :: 0 <= i < |Split(message, "\n")| ==> Uncommented(Split(message, "\n")[i])
    ensures SetupScript.Filter(Split(message + EditorText(instruction), "\n"), Uncommented)
      == Split(message, "\n") + [""]
  {
    var ms := Split(message, "\n");
    var ps := Commented(Split(instruction, "\n"));
    assert Split(message + EditorText(instruction), "\n") == ms + ([""] + ps) by {
      EditedLines(message, instruction);
    }
    assert SetupScript.Filter(ms, Uncommented) == ms by {
      FilterKeepsAll(ms, Uncommented);
    }
    assert SetupScript.Filter(ps, Uncommented) == [] by {
      FilterDropsAll(ps, Uncommented);
    }
    assert SetupScript.Filter([""] + ps, Uncommented) == [""] by {
      FilterAppend([""], ps, Uncommented);
      assert SetupScript.Filter([""], Uncommented) == [""];
    }
    FilterAppend(ms, [""] + ps, Uncommented);
  }

  /** The lines of the edited file: those of the message, an empty one, and the comments. */
  lemma EditedLines(message: string, instruction: string)
    ensures Split(message + EditorText(instruction), "\n")
      == Split(message, "\n") + ([""] + Commented(Split(instruction, "\n")))
  {
    var ms := Split(message, "\n");
    var ps := Commented(Split(instruction, "\n"));
    var lines := ms + ([""] + ps);
    EditedJoin(message, instruction);
    EditedLinesFree(message, instruction);
    JoinSplitLead(lines, "\n");
  }

  /** Joining those lines gives back the edited file. */
  lemma EditedJoin(message: string, instruction: string)
    ensures Join("\n", Split(message, "\n") + ([""] + Commented(Split(instruction, "\n"))))
      == message + EditorText(instruction)
  {
    var ps := Commented(Split(instruction, "\n"));
    EditorTextJoin(instruction);
    SplitJoin(message, "\n");
    LinesJoin(Split(message, "\n"), ps, message);
  }

  /** The text appended to the message is two line breaks and the commented lines. */
  lemma EditorTextJoin(instruction: string)
    ensures EditorText(instruction) == "\n" + ("\n" + Join("\n", Commented(Split(instruction, "\n"))))
  {
    CommentedJoin(Split(instruction, "\n"));
    assert "\n\n# " == "\n" + ("\n" + "# ");
  }

  /** Message lines, an empty line and further lines join to the message, two line
      breaks and the further lines. */
  lemma LinesJoin(ms: seq<string>, ps: seq<string>, message: string)
    requires ms != [] && ps != [] && Join("\n", ms) == message
    ensures Join("\n", ms + ([""] + ps)) == message + ("\n" + ("\n" + Join("\n", ps)))
  {
    JoinAppend([""], ps, "\n");
    JoinAppend(ms, [""] + ps, "\n");
  }

  /** None of those lines holds a line break. */
  lemma EditedLinesFree(message: string, instruction: string)
    ensures var lines := Split(message, "\n") + ([""] + Commented(Split(instruction, "\n")));
      forall i :: 0 <= i < |lines| ==> "\n"[0] !in lines[i]
  {
    var ms := Split(message, "\n");
    var ls := Split(instruction, "\n");
    var ps := Commented(ls);
    var lines := ms + ([""] + ps);
    SplitPiecesFree(message, "\n");
    SplitPiecesFree(instruction, "\n");
    forall i | 0 <= i < |lines| ensures "\n"[0] !in lines[i] {
      if i < |ms| {
        assert lines[i] == ms[i];
        CharFree(ms[i], '\n');
      } else if i > |ms| {
        assert lines[i] == ps[i - |ms| - 1] == "# " + ls[i - |ms| - 1];
        CharFree(ls[i - |ms| - 1], '\n');
      }
    }
  }

  /** Each line as a comment. */
  function Commented(lines: seq<string>): (r: seq<string>)
    ensures |r| == |lines| && forall i :: 0 <= i < |r| ==> r[i] == "# " + lines[i]
  {
    if lines == [] then [] else ["# " + lines[0]] + Commented(lines[1..])
  }

  lemma {:induction false} CommentedJoin(lines: seq<string>)
    requires lines != []
    ensures "# " + Join("\n# ", lines) == Join("\n", Commented(lines))
    decreases |lines|
  {
    if |lines| > 1 {
      CommentedJoin(lines[1..]);
      assert Commented(lines)[1..] == Commented(lines[1..]);
    }
  }

  lemma {:induction false} FilterAppend<T>(a: seq<T>, b: seq<T>, keep: T -> bool)
    ensures SetupScript.Filter(a + b, keep) == SetupScript.Filter(a, keep) + SetupScript.Filter(b, keep)
    decreases |a|
  {
    if a == [] {
      assert a + b == b;
    } else {
      var h := if keep(a[0]) then [a[0]] else [];
      assert (a + b)[0] == a[0];
      assert (a + b)[1..] == a[1..] + b;
      FilterAppend(a[1..], b, keep);
      assert SetupScript.Filter(a + b, keep) == h + SetupScript.Filter(a[1..] + b, keep);
      assert SetupScript.Filter(a, keep) == h + SetupScript.Filter(a[1..], keep);
      AppendAssoc(h, SetupScript.Filter(a[1..], keep), SetupScript.Filter(b, keep));
    }
  }

  lemma {:induction false} FilterKeepsAll<T>(s: seq<T>, keep: T -> bool)
    requires forall i :: 0 <= i < |s| ==> keep(s[i])
    ensures SetupScript.Filter(s, keep) == s
    decreases |s|
  {
    if s != [] {
      FilterKeepsAll(s[1..], keep);
    }
  }

  lemma {:induction false} FilterDropsAll(s: seq<string>, keep: string -> bool)
    requires forall i :: 0 <= i < |s| ==> !keep(s[i])
    ensures SetupScript.Filter(s, keep) == []
    decreases |s|
  {
    if s != [] {
      FilterDropsAll(s[1..], keep);
    }
  }

  /** A trailing newline makes no difference to the stripped text. */
  lemma StripNewline(s: string)
    ensures Strip(s + "\n") == Strip(s)
  {
    LStripAppend(s, "\n");
    var l := LStrip(s, Whitespace);
    if l != [] {
      assert (l + "\n")[..|l + "\n"| - 1] == l;
    }
  }

  lemma {:induction false} LStripAppend(a: string, b: string)
    ensures LStrip(a + b, Whitespace) == if LStrip(a, Whitespace) == [] then LStrip(b, Whitespace) else LStrip(a, Whitespace) + b
    decreases |a|
  {
    if a == [] {
      assert a + b == b;
    } else {
      assert (a + b)[0] == a[0];
      if a[0] in Whitespace {
        assert (a + b)[1..] == a[1..] + b;
        LStripAppend(a[1..], b);
      }
    }
  }

  /** `rs`: every character but an ASCII letter or digit becomes `_`. */
  function Sanitized(s: string): (r: string)
    ensures |r| == |s|
    ensures forall i :: 0 <= i < |s| ==> r[i] == if IsAlnum(s[i]) then s[i] else '_'
  {
    if s == [] then [] else [if IsAlnum(s[0]) then s[0] else '_'] + Sanitized(s[1..])
  }

  /** A sanitised name holds only letters, digits and `_`, and sanitising it again
      changes nothing. */
  lemma SanitizedMeaning(s: string)
    ensures forall i :: 0 <= i < |Sanitized(s)| ==> IsAlnum(Sanitized(s)[i]) || Sanitized(s)[i] == '_'
    ensures Sanitized(Sanitized(s)) == Sanitized(s)
    ensures (forall i :: 0 <= i < |s| ==> IsAlnum(s[i])) ==> Sanitized(s) == s
  {
  }

  /** The name the process is retitled with: the program, the repository's (or working
      directory's) base name, and the title. */
  function ProcessTitle(prog: string, repo: string, cwd: string, title: string): string
  {
    prog + " [" + Basename(if repo == "" then cwd else repo) + "] " + title
  }

  /** The default log file in the temporary directory. */
  function DefaultLogFile(tmpdir: string, repo: string, cwd: string, title: string): string
  {
    PathJoin(tmpdir, "wait-" + Sanitized(Basename(if repo == "" then cwd else repo)) + "-" + Sanitized(title) + ".out")
  }

  /** The process state `run_in_background` keeps: whether it has forked already (the
      `forked` attribute set on the function) and the current process title. */
  class Background {
    var forked: bool
    var title: string

    constructor(title0: string)
      ensures !forked && title == title0
    {
      forked := false;
      title := title0;
    }

    /** The first call forks and returns the log file output goes to; any later call
        only retitles the process. */
    method RunInBackground(title: string, repo: string, cwd: string, argv0: string, logFile: string, tmpdir: string)
      returns (log: Option<string>)
      modifies this
      ensures this.title == ProcessTitle(Basename(argv0), repo, cwd, title)
      ensures forked
      ensures old(forked) ==> log == None
      ensures !old(forked) ==> log == Some(if logFile == "" then DefaultLogFile(tmpdir, repo, cwd, title) else logFile)
    {
      var prog := Basename(argv0);
      this.title := prog + " [" + Basename(if repo == "" then cwd else repo) + "] " + title;
      if forked {
        return None;
      }
      forked := true;
      var file := logFile;
      if file == "" {
        file := PathJoin(tmpdir, "wait-" + Sanitized(Basename(if repo == "" then cwd else repo)) + "-" + Sanitized(title) + ".out");
      }
      log := Some(file);
    }
  }
}
