// What `setup_workspace` does to `~/.bashrc` (workspace/commands/setup.py:471-509, and
// the same code in src/workspace/commands/setup.py:267-305): the block between the two
// marker lines and every line sourcing `~/.wstrc` are dropped, the rest is stripped and
// written back. Also `_relative_path` and the `COMMANDS.update` of extra commands.
module SetupScript {
  import opened Wrappers
  import opened Text

  const SetupStart := "# Added by \"workspace setup\" (do not remove comments before / after function)"
  const SetupEnd := "# workspace setup - end"
  const WstrcFile := "~/.wstrc"

  predicate IsMarker(line: string)
  {
    line == SetupStart || line == SetupEnd
  }

  /** The lines that survive the filter when it starts in state `skip`: a marker line
      flips the state and is dropped, lines while skipping are dropped, and so is any
      line mentioning the wstrc file. */
  function Kept(lines: seq<string>, skip: bool): seq<string>
  {
    if lines == [] then []
    else if IsMarker(lines[0]) then Kept(lines[1..], !skip)
    else (if !skip && !Contains(lines[0], WstrcFile) then [lines[0]] else []) + Kept(lines[1..], skip)
  }

  /** The skip state after reading `lines` from state `skip`. */
  function SkipAfter(lines: seq<string>, skip: bool): bool
  {
    if lines == [] then skip
    else SkipAfter(lines[1..], if IsMarker(lines[0]) then !skip else skip)
  }

  /** The bashrc lines kept by `setup_workspace`, after the final strip and re-split. */
  function Script(content: string): seq<string>
  {
    Split(Strip(Join("\n", Kept(Split(content, "\n"), false))), "\n")
  }

  /** The loop of `setup_workspace` over the lines of the bashrc. */
  method FilterBashrc(content: string) returns (script: seq<string>)
    ensures script == Script(content)
  {
    var lines := Split(content, "\n");
    var kept: seq<string> := [];
    var skip := false;
    for k := 0 to |lines|
      invariant kept + Kept(lines[k..], skip) == Kept(lines, false)
    {
      assert lines[k..][1..] == lines[k + 1..];
      var line := lines[k];
      if line == SetupStart || line == SetupEnd {
        skip := !skip;
        continue;
      }
      if !skip && !Contains(line, WstrcFile) {
        kept := kept + [line];
      }
    }
    assert lines[|lines|..] == [];
    assert kept == Kept(lines, false);
    script := Split(Strip(Join("\n", kept)), "\n");
  }

  /** The filter reads a concatenation in two parts, the second starting in the state
      the first leaves behind. */
  lemma {:induction false} KeptAppend(a: seq<string>, b: seq<string>, skip: bool)
    ensures Kept(a + b, skip) == Kept(a, skip) + Kept(b, SkipAfter(a, skip))
    decreases |a|
  {
    if a != [] {
      assert (a + b)[0] == a[0];
      assert (a + b)[1..] == a[1..] + b;
      var next := if IsMarker(a[0]) then !skip else skip;
      KeptAppend(a[1..], b, next);
      assert SkipAfter(a, skip) == SkipAfter(a[1..], next);
      if IsMarker(a[0]) {
        assert Kept(a + b, skip) == Kept(a[1..] + b, next);
        assert Kept(a, skip) == Kept(a[1..], next);
      } else {
        var head := if !skip && !Contains(a[0], WstrcFile) then [a[0]] else [];
        assert Kept(a + b, skip) == head + Kept(a[1..] + b, skip);
        assert Kept(a, skip) == head + Kept(a[1..], skip);
      }
    } else {
      assert a + b == b;
    }
  }

  /** Everything read while skipping, up to the next marker, is dropped. */
  lemma {:induction false} SkippedDropped(lines: seq<string>)
    requires forall i :: 0 <= i < |lines| ==> !IsMarker(lines[i])
    ensures Kept(lines, true) == [] && !SkipAfter(lines, false) && SkipAfter(lines, true)
    decreases |lines|
  {
    if lines != [] {
      SkippedDropped(lines[1..]);
    }
  }

  /** A marker-delimited block is removed whole; the lines around it are filtered as if
      the block were not there. */
  lemma BlockDropped(before: seq<string>, block: seq<string>, after: seq<string>)
    requires forall i :: 0 <= i < |before| ==> !IsMarker(before[i])
    requires forall i :: 0 <= i < |block| ==> !IsMarker(block[i])
    ensures Kept(before + [SetupStart] + block + [SetupEnd] + after, false)
      == Kept(before, false) + Kept(after, false)
  {
    var tail := [SetupEnd] + after;
    var inner := block + tail;
    var middle := [SetupStart] + inner;
    BlockShape(before, block, after, SetupStart, SetupEnd);
    calc {
      Kept(before + middle, false);
    == { KeptAppend(before, middle, false); SkippedDropped(before); }
      Kept(before, false) + Kept(middle, false);
    == { MarkerFlips(SetupStart, inner, false); }
      Kept(before, false) + Kept(inner, true);
    == { KeptAppend(block, tail, true); SkippedDropped(block); }
      Kept(before, false) + ([] + Kept(tail, true));
    == { MarkerFlips(SetupEnd, after, true); assert [] + Kept(tail, true) == Kept(tail, true); }
      Kept(before, false) + Kept(after, false);
    }
  }

  lemma BlockShape<T>(before: seq<T>, block: seq<T>, after: seq<T>, start: T, end: T)
    ensures before + [start] + block + [end] + after == before + ([start] + (block + ([end] + after)))
  {
  }

  lemma MarkerFlips(marker: string, lines: seq<string>, skip: bool)
    requires IsMarker(marker)
    ensures Kept([marker] + lines, skip) == Kept(lines, !skip)
  {
    assert ([marker] + lines)[1..] == lines;
  }

  /** Every kept line is a line of the input, is not a marker and does not mention the
      wstrc file, and the kept lines keep their input order. */
  lemma {:induction false} KeptSound(lines: seq<string>, skip: bool, i: nat)
    requires i < |Kept(lines, skip)|
    ensures exists j :: 0 <= j < |lines| && lines[j] == Kept(lines, skip)[i]
    ensures !IsMarker(Kept(lines, skip)[i]) && !Contains(Kept(lines, skip)[i], WstrcFile)
    decreases |lines|
  {
    var r := Kept(lines, skip);
    if IsMarker(lines[0]) {
      KeptSound(lines[1..], !skip, i);
      var j :| 0 <= j < |lines[1..]| && lines[1..][j] == r[i];
      assert lines[j + 1] == r[i];
    } else if !skip && !Contains(lines[0], WstrcFile) && i == 0 {
      assert lines[0] == r[i];
    } else {
      var head := if !skip && !Contains(lines[0], WstrcFile) then 1 else 0;
      KeptSound(lines[1..], skip, i - head);
      var j :| 0 <= j < |lines[1..]| && lines[1..][j] == Kept(lines[1..], skip)[i - head];
      assert lines[j + 1] == r[i];
    }
  }

  /** A bashrc without markers loses exactly its wstrc lines. */
  lemma {:induction false} KeptWithoutMarkers(lines: seq<string>, line: string)
    requires forall i :: 0 <= i < |lines| ==> !IsMarker(lines[i])
    ensures line in Kept(lines, false) <==> line in lines && !Contains(line, WstrcFile)
    decreases |lines|
  {
    if lines != [] {
      KeptWithoutMarkers(lines[1..], line);
      assert line in lines <==> line == lines[0] || line in lines[1..];
    }
  }

  /** The kept script, joined back, has no leading or trailing whitespace. */
  lemma ScriptStripped(content: string)
    ensures var s := Join("\n", Script(content));
      s == "" || (s[0] !in Whitespace && s[|s| - 1] !in Whitespace)
  {
    var joined := Join("\n", Kept(Split(content, "\n"), false));
    var left := LStrip(joined, Whitespace);
    var s := RStrip(left, Whitespace);
    SplitJoin(s, "\n");
    assert Join("\n", Script(content)) == s;
    if s != "" {
      assert s[0] == left[0];
    }
  }

  /** `_relative_path`: a path under `cwd` loses the `cwd + "/"` prefix; any other path
      is returned as it is. */
  function RelativePath(path: string, cwd: string): string
  {
    if StartsWith(path, cwd + "/") then path[|cwd| + 1..] else path
  }

  lemma RelativePathMeaning(path: string, cwd: string)
    ensures var r := RelativePath(path, cwd);
      && (StartsWith(path, cwd + "/") <==> |r| < |path|)
      && (StartsWith(path, cwd + "/") ==> cwd + "/" + r == path)
      && (!StartsWith(path, cwd + "/") ==> r == path)
  {
    if StartsWith(path, cwd + "/") {
      var r := path[|cwd| + 1..];
      assert path == path[..|cwd| + 1] + r;
    }
  }

  /** Joining a relative name under `cwd` and taking it relative again gives it back. */
  lemma RelativePathRoundTrip(rel: string, cwd: string)
    ensures RelativePath(cwd + "/" + rel, cwd) == rel
  {
    var path := cwd + "/" + rel;
    assert path[..|cwd + "/"|] == cwd + "/";
    assert path[|cwd| + 1..] == rel;
  }

  /** A dictionary in insertion order, as `COMMANDS` is: alias to command. */
  type Entries = seq<(string, string)>

  function Keys(items: Entries): (r: seq<string>)
    ensures |r| == |items|
  {
    if items == [] then [] else [items[0].0] + Keys(items[1..])
  }

  /** No key occurs twice, as in any dictionary. */
  predicate Distinct(s: seq<string>)
  {
    s == [] || (s[0] !in s[1..] && Distinct(s[1..]))
  }

  function Lookup(items: Entries, key: string): Option<string>
  {
    if items == [] then None
    else if items[0].0 == key then Some(items[0].1)
    else Lookup(items[1..], key)
  }

  /** `d[key] = value`: an existing key keeps its place, a new one goes last. */
  function Put(items: Entries, key: string, value: string): Entries
  {
    if items == [] then [(key, value)]
    else if items[0].0 == key then [(key, value)] + items[1..]
    else [items[0]] + Put(items[1..], key, value)
  }

  /** `d.update(extra)`. */
  function Update(items: Entries, extra: Entries): Entries
    decreases |extra|
  {
    if extra == [] then items else Update(Put(items, extra[0].0, extra[0].1), extra[1..])
  }

  /** Assigning a key adds it at the end when it is new and otherwise keeps the keys. */
  lemma {:induction false} PutKeys(items: Entries, key: string, value: string)
    ensures Keys(Put(items, key, value)) == if key in Keys(items) then Keys(items) else Keys(items) + [key]
    decreases |items|
  {
    if items != [] && items[0].0 != key {
      PutKeys(items[1..], key, value);
      assert Keys(items) == [items[0].0] + Keys(items[1..]);
    }
  }

  lemma {:induction false} LookupMissing(items: Entries, key: string)
    requires key !in Keys(items)
    ensures Lookup(items, key) == None
    decreases |items|
  {
    if items != [] {
      LookupMissing(items[1..], key);
    }
  }

  /** After `d[key] = value` the key reads as `value`, every other key as before, and no
      key occurs twice. */
  lemma {:induction false} PutMeaning(items: Entries, key: string, value: string, other: string)
    requires Distinct(Keys(items))
    ensures Distinct(Keys(Put(items, key, value)))
    ensures Lookup(Put(items, key, value), other) == if other == key then Some(value) else Lookup(items, other)
    decreases |items|
  {
    if items != [] && items[0].0 != key {
      var rest := Put(items[1..], key, value);
      PutMeaning(items[1..], key, value, other);
      PutKeys(items[1..], key, value);
      assert Keys(Put(items, key, value)) == [items[0].0] + Keys(rest);
    }
  }

  /** After `d.update(extra)` every key of `extra` reads as in `extra`, and every other
      key as in `d`. */
  lemma {:induction false} UpdateMeaning(items: Entries, extra: Entries, key: string)
    requires Distinct(Keys(items)) && Distinct(Keys(extra))
    ensures Distinct(Keys(Update(items, extra)))
    ensures Lookup(Update(items, extra), key) ==
      if Lookup(extra, key).Some? then Lookup(extra, key) else Lookup(items, key)
    decreases |extra|
  {
    if extra != [] {
      var next := Put(items, extra[0].0, extra[0].1);
      PutMeaning(items, extra[0].0, extra[0].1, key);
      UpdateMeaning(next, extra[1..], key);
      if extra[0].0 == key {
        LookupMissing(extra[1..], key);
      }
    }
  }

  /** The new `~/.bashrc`: the kept script (when the file existed) followed by a blank
      line, then the line sourcing the wstrc file unless uninstalling. An existing file
      always leaves a non-empty script, since a split has at least one piece. */
  function Rewritten(bashrc: Option<string>, uninstall: bool): string
  {
    var script := if bashrc.Some? then Script(bashrc.value) else [];
    (if script != [] then Join("\n", script) + "\n\n" else "")
      + (if uninstall then "" else "source " + WstrcFile + "\n")
  }

  /** The writing of `~/.bashrc` in `setup_workspace`. */
  method WriteBashrc(bashrc: Option<string>, uninstall: bool) returns (text: string)
    ensures text == Rewritten(bashrc, uninstall)
  {
    var script: seq<string> := [];
    if bashrc.Some? {
      script := FilterBashrc(bashrc.value);
    }
    text := "";
    if script != [] {
      text := Join("\n", script) + "\n\n";
    }
    if !uninstall {
      text := text + "source " + WstrcFile + "\n";
    }
  }

  /** Running the setup again on the bashrc it wrote keeps the same script, as long as
      no kept line is a marker or mentions the wstrc file. */
  lemma RerunKeepsScript(content: string, uninstall: bool)
    requires forall i :: 0 <= i < |Script(content)| ==>
      !IsMarker(Script(content)[i]) && !Contains(Script(content)[i], WstrcFile)
    ensures Script(Rewritten(Some(content), uninstall)) == Script(content)
  {
    var script := Script(content);
    var stripped := Strip(Join("\n", Kept(Split(content, "\n"), false)));
    SplitJoin(stripped, "\n");
    SplitPiecesFree(stripped, "\n");
    forall i | 0 <= i < |script| ensures '\n' !in script[i] {
      CharFree(script[i], '\n');
    }
    ScriptStripped(content);
    var written := Rewritten(Some(content), uninstall);
    assert written == Join("\n", script) + "\n\n" + (if uninstall then "" else "source " + WstrcFile + "\n");
    RewrittenJoin(script, uninstall);
    TailJoin(uninstall);
    NewlineFree(script, TailLines(uninstall));
    JoinSplitLead(script + TailLines(uninstall), "\n");
    KeptRewritten(script, uninstall);
    Restrip(script);
  }

  /** The lines a rewritten bashrc ends with, after the kept script. */
  function TailLines(uninstall: bool): seq<string>
  {
    if uninstall then ["", ""] else ["", "source " + WstrcFile, ""]
  }

  lemma RewrittenJoin(script: seq<string>, uninstall: bool)
    requires script != []
    ensures Join("\n", script + TailLines(uninstall))
      == Join("\n", script) + "\n\n" + (if uninstall then "" else "source " + WstrcFile + "\n")
  {
    var last := if uninstall then "" else "source " + WstrcFile + "\n";
    var joined := Join("\n", script);
    TailJoin(uninstall);
    JoinAppend(script, TailLines(uninstall), "\n");
    assert joined + "\n" + ("\n" + last) == joined + "\n\n" + last;
  }

  lemma NewlineFree(a: seq<string>, b: seq<string>)
    requires forall i :: 0 <= i < |a| ==> '\n' !in a[i]
    requires forall i :: 0 <= i < |b| ==> '\n' !in b[i]
    ensures forall i :: 0 <= i < |a + b| ==> "\n"[0] !in (a + b)[i]
  {
    forall i | 0 <= i < |a + b| ensures "\n"[0] !in (a + b)[i] {
      if i < |a| {
        assert (a + b)[i] == a[i];
      } else {
        assert (a + b)[i] == b[i - |a|];
      }
    }
  }

  lemma TailJoin(uninstall: bool)
    ensures Join("\n", TailLines(uninstall)) == "\n" + (if uninstall then "" else "source " + WstrcFile + "\n")
    ensures forall i :: 0 <= i < |TailLines(uninstall)| ==> '\n' !in TailLines(uninstall)[i]
  {
    var source := "source " + WstrcFile;
    assert forall j :: 0 <= j < |source| ==> source[j] != '\n';
    if !uninstall {
      var tail := TailLines(uninstall);
      assert tail[1..] == [source, ""] && tail[1..][1..] == [""];
      assert Join("\n", [source, ""]) == source + "\n" + "";
      assert Join("\n", tail) == "" + "\n" + (source + "\n" + "");
    }
  }

  lemma KeptRewritten(script: seq<string>, uninstall: bool)
    requires forall i :: 0 <= i < |script| ==> !IsMarker(script[i]) && !Contains(script[i], WstrcFile)
    ensures Kept(script + TailLines(uninstall), false) == script + ["", ""]
  {
    KeptAppend(script, TailLines(uninstall), false);
    SkippedDropped(script);
    KeptUnmarked(script);
    KeptTail(uninstall);
  }

  lemma KeptTail(uninstall: bool)
    ensures Kept(TailLines(uninstall), false) == ["", ""]
  {
    var tail := TailLines(uninstall);
    var source := "source " + WstrcFile;
    assert source[7..15] == WstrcFile;
    assert OccursAt(source, WstrcFile, 7);
    ContainsIff(source, WstrcFile);
    assert !IsMarker("") && !IsMarker(source) by {
      assert |source| != |SetupStart| && |source| != |SetupEnd|;
    }
    assert !Contains("", WstrcFile);
    assert Kept([""], false) == [""];
    if uninstall {
      assert tail[1..] == [""];
    } else {
      assert tail[1..] == [source, ""] && tail[1..][1..] == [""];
      assert Kept([source, ""], false) == Kept([""], false);
    }
  }

  lemma Restrip(script: seq<string>)
    requires script != [] && forall i :: 0 <= i < |script| ==> '\n' !in script[i]
    requires var s := Join("\n", script); s == "" || (s[0] !in Whitespace && s[|s| - 1] !in Whitespace)
    ensures Split(Strip(Join("\n", script + ["", ""])), "\n") == script
  {
    var s := Join("\n", script);
    TwoBlankLines(script);
    BlankLinesWhitespace();
    StripTrailing(s, "\n\n");
    assert "\n"[0] == '\n';
    JoinSplitLead(script, "\n");
  }

  /** Two empty lines joined after a script end it with two line breaks. */
  lemma TwoBlankLines(script: seq<string>)
    requires script != []
    ensures Join("\n", script + ["", ""]) == Join("\n", script) + "\n\n"
  {
    JoinAppend(script, ["", ""], "\n");
    assert Join("\n", ["", ""]) == "\n";
    AppendAssoc(Join("\n", script), "\n", "\n");
  }

  lemma BlankLinesWhitespace()
    ensures forall j :: 0 <= j < |"\n\n"| ==> "\n\n"[j] in Whitespace
  {
  }

  /** A script with no marker and no wstrc line is kept whole. */
  lemma {:induction false} KeptUnmarked(lines: seq<string>)
    requires forall i :: 0 <= i < |lines| ==> !IsMarker(lines[i]) && !Contains(lines[i], WstrcFile)
    ensures Kept(lines, false) == lines
    decreases |lines|
  {
    if lines != [] {
      KeptUnmarked(lines[1..]);
    }
  }

  /** Appending whitespace to an already stripped text is undone by stripping. */
  lemma StripTrailing(s: string, w: string)
    requires s == "" || (s[0] !in Whitespace && s[|s| - 1] !in Whitespace)
    requires forall j :: 0 <= j < |w| ==> w[j] in Whitespace
    ensures Strip(s + w) == s
  {
    if s == "" {
      assert s + w == w;
      LStripAll(w);
    } else {
      assert LStrip(s + w, Whitespace) == s + w;
      RStripAll(s, w);
    }
  }

  lemma {:induction false} LStripAll(w: string)
    requires forall j :: 0 <= j < |w| ==> w[j] in Whitespace
    ensures LStrip(w, Whitespace) == ""
    decreases |w|
  {
    if w != "" {
      LStripAll(w[1..]);
    }
  }

  lemma {:induction false} RStripAll(s: string, w: string)
    requires s != "" && s[|s| - 1] !in Whitespace
    requires forall j :: 0 <= j < |w| ==> w[j] in Whitespace
    ensures RStrip(s + w, Whitespace) == s
    decreases |w|
  {
    if w == "" {
      assert s + w == s;
    } else {
      var w' := w[..|w| - 1];
      assert (s + w)[..|s + w| - 1] == s + w';
      RStripAll(s, w');
    }
  }

  /** The values of a dictionary, in its order. */
  function Values(items: Entries): (r: seq<string>)
    ensures |r| == |items|
  {
    if items == [] then [] else [items[0].1] + Values(items[1..])
  }

  lemma {:induction false} ValuesMultiset(items: Entries, v: string)
    ensures v in Values(items) <==> exists i :: 0 <= i < |items| && items[i].1 == v
    decreases |items|
  {
    if items != [] {
      ValuesMultiset(items[1..], v);
      if exists i :: 0 <= i < |items| && items[i].1 == v {
        var i :| 0 <= i < |items| && items[i].1 == v;
        if i > 0 { assert items[1..][i - 1] == items[i]; }
      }
      if exists i :: 0 <= i < |items[1..]| && items[1..][i].1 == v {
        var i :| 0 <= i < |items[1..]| && items[1..][i].1 == v;
        assert items[i + 1] == items[1..][i];
      }
    }
  }

  /** A list comprehension `[x for x in s if keep(x)]`. */
  function Filter<T>(s: seq<T>, keep: T -> bool): seq<T>
  {
    if s == [] then [] else (if keep(s[0]) then [s[0]] else []) + Filter(s[1..], keep)
  }

  /** Each element kept occurs as often as in `s`; each element dropped not at all. */
  lemma {:induction false} FilterMultiset<T>(s: seq<T>, keep: T -> bool, x: T)
    ensures multiset(Filter(s, keep))[x] == if keep(x) then multiset(s)[x] else 0
    decreases |s|
  {
    if s != [] {
      FilterMultiset(s[1..], keep, x);
      assert s == [s[0]] + s[1..];
    }
  }

  /** Filtering a sorted list leaves it sorted. */
  lemma {:induction false} FilterSorted<T>(s: seq<T>, keep: T -> bool, key: T -> string)
    requires SortedBy(s, key)
    ensures SortedBy(Filter(s, keep), key)
    decreases |s|
  {
    if s != [] {
      var rest := Filter(s[1..], keep);
      assert SortedBy(s[1..], key) by {
        forall i, j | 0 <= i < j < |s[1..]| ensures !Lt(key(s[1..][j]), key(s[1..][i])) {
          assert s[1..][i] == s[i + 1] && s[1..][j] == s[j + 1];
        }
      }
      FilterSorted(s[1..], keep, key);
      if keep(s[0]) {
        var r := [s[0]] + rest;
        forall i, j | 0 <= i < j < |r| ensures !Lt(key(r[j]), key(r[i])) {
          if i == 0 {
            var x := r[j];
            assert x == rest[j - 1];
            FilterMultiset(s[1..], keep, x);
            assert x in multiset(rest);
            var k :| 0 <= k < |s[1..]| && s[1..][k] == x;
            assert s[k + 1] == x;
          } else {
            assert r[i] == rest[i - 1] && r[j] == rest[j - 1];
          }
        }
      }
    }
  }

  /** What `setup_workspace` writes to `~/.wstrc`, one entry per template it fills in:
      the `ws` function, a bash function per command, an alias per shortcut, the
      completion script, and the blank lines between groups. */
  datatype Block =
    | WsFunction(workspaceDir: string)
    | Function(name: string, target: string)
    | Alias(alias: string, command: string)
    | Blank
    | AutoComplete

  /** One bash function per command, calling `_wst` with the command stripped of its
      leading `_`. */
  function FunctionBlocks(fs: seq<string>): (r: seq<Block>)
    ensures |r| == |fs|
    ensures forall i :: 0 <= i < |r| ==> r[i] == FunctionLine(fs[i])
  {
    if fs == [] then [] else [FunctionLine(fs[0])] + FunctionBlocks(fs[1..])
  }

  /** The bash function for one command. */
  function FunctionLine(f: string): Block
  {
    Function(f, LStrip(f, {'_'}))
  }

  /** The loop writing one bash function per command. */
  method WriteFunctions(head: seq<Block>, functions: seq<string>) returns (blocks: seq<Block>)
    ensures blocks == head + FunctionBlocks(functions)
  {
    blocks := head;
    for k := 0 to |functions|
      invariant blocks == head + FunctionBlocks(functions[..k])
    {
      FunctionBlocksSnoc(functions, k);
      AppendOne(head, FunctionBlocks(functions[..k]), FunctionBlocks(functions[..k + 1]), FunctionLine(functions[k]));
      blocks := blocks + [FunctionLine(functions[k])];
    }
    assert functions[..|functions|] == functions;
  }

  /** Appending to a sequence that follows `head`. */
  lemma AppendOne(head: seq<Block>, xs: seq<Block>, ys: seq<Block>, x: Block)
    requires ys == xs + [x]
    ensures head + ys == (head + xs) + [x]
  {
  }

  /** The functions of two lists of commands are those of each, in order. */
  lemma FunctionBlocksConcat(a: seq<string>, b: seq<string>)
    ensures FunctionBlocks(a + b) == FunctionBlocks(a) + FunctionBlocks(b)
  {
    var l, r := FunctionBlocks(a + b), FunctionBlocks(a) + FunctionBlocks(b);
    forall i | 0 <= i < |l| ensures l[i] == r[i] {
      if i < |a| {
        assert (a + b)[i] == a[i];
      } else {
        assert (a + b)[i] == b[i - |a|];
      }
    }
  }

  /** One more command adds its function at the end. */
  lemma FunctionBlocksSnoc(fs: seq<string>, k: nat)
    requires k < |fs|
    ensures FunctionBlocks(fs[..k + 1]) == FunctionBlocks(fs[..k]) + [FunctionLine(fs[k])]
  {
    assert fs[..k + 1] == fs[..k] + [fs[k]];
    FunctionBlocksConcat(fs[..k], [fs[k]]);
  }
}
