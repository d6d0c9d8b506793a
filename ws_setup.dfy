// `wst setup` (workspace/commands/setup.py): the choice among its options, and the
// bashrc and wstrc files `setup_workspace` writes. Whether the bashrc exists and what it
// holds, the workspace directory and the command tables are inputs; the text of the
// templates is not modelled, only which template is filled in with what.
module WsSetup {
  import opened Wrappers
  import opened Text
  import opened SetupScript

  /** The command line of `wst setup`. A product group counts when it is a non-empty
      name, as Python's truth test on a string has it. */
  datatype Options = Options(
    productGroup: Option<string>,
    product: bool,
    commands: bool,
    commandsWithAliases: bool,
    uninstall: bool)

  function Count(b: bool): nat { if b then 1 else 0 }

  function OptionCount(o: Options): nat
  {
    Count(o.productGroup.Some? && o.productGroup.value != "") + Count(o.product)
      + Count(o.commands) + Count(o.commandsWithAliases) + Count(o.uninstall)
  }

  datatype Action =
    | Exit(code: int, message: string)
    | SetupProductGroup(group: string)
    | SetupProduct
    | SetupWorkspace

  /** `Setup.run`: exactly one option must be chosen. */
  function Dispatch(o: Options): Action
  {
    var n := OptionCount(o);
    if n > 1 then Exit(1, "Only one setup option can be selected at a time.")
    else if n == 0 then Exit(1, "At least one option must be selected. See -h for options.")
    else if o.productGroup.Some? && o.productGroup.value != "" then SetupProductGroup(o.productGroup.value)
    else if o.product then SetupProduct
    else SetupWorkspace
  }

  /** Zero or several options exit with status 1; otherwise the one chosen option
      decides, and the workspace setup covers the three remaining flags. */
  lemma DispatchMeaning(o: Options)
    ensures var a := Dispatch(o);
      && (a.Exit? <==> OptionCount(o) != 1)
      && (a.Exit? ==> a.code == 1)
      && (a.SetupProductGroup? <==> OptionCount(o) == 1 && o.productGroup.Some? && o.productGroup.value != "")
      && (a.SetupProductGroup? ==> o.productGroup == Some(a.group))
      && (a.SetupProduct? <==> OptionCount(o) == 1 && o.product)
      && (a.SetupWorkspace? <==> OptionCount(o) == 1 && (o.commands || o.commandsWithAliases || o.uninstall))
  {
  }

  /** `special`: a command that is a quoted text or starts with a space, which gets an
      alias but no bash function of its own. */
  predicate Special(c: string)
  {
    StartsWith(c, "'") || StartsWith(c, "\"") || StartsWith(c, " ")
  }

  predicate Plain(c: string) { !Special(c) }

  /** The commands that get a bash function, sorted. */
  function Functions(items: Entries): seq<string>
  {
    Sorted(Filter(Values(items), Plain))
  }

  /** The functions are sorted, and each non-special command value occurs among them as
      often as in the table; no special one does. */
  lemma FunctionsMeaning(items: Entries, f: string)
    ensures SortedBy(Functions(items), Identity)
    ensures multiset(Functions(items))[f] == if Special(f) then 0 else multiset(Values(items))[f]
  {
    FilterMultiset(Values(items), Plain, f);
  }

  /** The sort key of an alias: its command with leading `_` removed. */
  function AliasKey(item: (string, string)): string
  {
    LStrip(item.1, {'_'})
  }

  predicate Public(item: (string, string)) { !StartsWith(item.0, "_") }

  /** The aliases written: sorted by command, without the ones whose name starts with
      `_`. */
  function Aliases(items: Entries): Entries
  {
    Filter(SortBy(items, AliasKey), Public)
  }

  lemma AliasesMeaning(items: Entries, e: (string, string))
    ensures SortedBy(Aliases(items), AliasKey)
    ensures multiset(Aliases(items))[e] == if StartsWith(e.0, "_") then 0 else multiset(items)[e]
  {
    var sorted := SortBy(items, AliasKey);
    FilterSorted(sorted, Public, AliasKey);
    FilterMultiset(sorted, Public, e);
  }

  /** One alias per entry, its command stripped of leading spaces. */
  function AliasBlocks(aliases: Entries): (r: seq<Block>)
    ensures |r| == |aliases|
    ensures forall i :: 0 <= i < |r| ==> r[i] == AliasLine(aliases[i])
  {
    if aliases == [] then [] else [AliasLine(aliases[0])] + AliasBlocks(aliases[1..])
  }

  /** One alias line: the command's leading spaces are stripped. */
  function AliasLine(entry: (string, string)): Block
  {
    Alias(entry.0, LStrip(entry.1, {' '}))
  }

  /** What `setup_workspace` writes to `~/.wstrc` for the given command table. */
  function Wstrc(o: Options, workspaceDir: string, items: Entries): seq<Block>
  {
    [WsFunction(workspaceDir)]
      + (if o.commands || o.commandsWithAliases then [Blank] + FunctionBlocks(Functions(items)) else [])
      + (if o.commandsWithAliases then [Blank] + AliasBlocks(Aliases(items)) + [AutoComplete] else [])
  }

  /** The workspace directory written into the `ws` function: the parent of the current
      repository, or the current directory, with the home directory shown as `~`. */
  function WorkspaceDir(repoPath: Option<string>, cwd: string, home: string): string
    requires |home| > 0
  {
    ReplaceAll(if repoPath.Some? then Dirname(repoPath.value) else cwd, home, "~")
  }

  /** A home directory without `~` in its name no longer appears in the directory. */
  lemma WorkspaceDirHidesHome(repoPath: Option<string>, cwd: string, home: string)
    requires |home| > 0 && '~' !in home
    ensures !Contains(WorkspaceDir(repoPath, cwd, home), home)
  {
    ReplaceAllRemoves(if repoPath.Some? then Dirname(repoPath.value) else cwd, home, "~");
  }

  /** `setup_workspace`: the new `~/.bashrc`, and the new `~/.wstrc` (`None` once it is
      removed by `--uninstall`). The extra commands are merged into the table first. */
  method Workspace(o: Options, bashrc: Option<string>, workspaceDir: string, commands: Entries, additional: Entries)
    returns (newBashrc: string, wstrc: Option<seq<Block>>)
    ensures newBashrc == Rewritten(bashrc, o.uninstall)
    ensures wstrc == if o.uninstall then None else Some(Wstrc(o, workspaceDir, Update(commands, additional)))
  {
    newBashrc := WriteBashrc(bashrc, o.uninstall);
    if o.uninstall {
      wstrc := None;
      return;
    }

    var items := commands;
    if additional != [] {
      items := Update(commands, additional);
    }
    assert items == Update(commands, additional);
    var functions: seq<Block> := [];
    if o.commands || o.commandsWithAliases {
      functions := WriteFunctions([Blank], Functions(items));
    }
    var aliases: seq<Block> := [];
    if o.commandsWithAliases {
      aliases := WriteAliases([Blank], Aliases(items));
      aliases := aliases + [AutoComplete];
    }
    wstrc := Some([WsFunction(workspaceDir)] + functions + aliases);
  }

  /** The loop writing one alias per entry. */
  method WriteAliases(head: seq<Block>, aliases: Entries) returns (blocks: seq<Block>)
    ensures blocks == head + AliasBlocks(aliases)
  {
    blocks := head;
    for k := 0 to |aliases|
      invariant blocks == head + AliasBlocks(aliases[..k])
    {
      AliasBlocksAppend(aliases, k);
      AppendOne(head, AliasBlocks(aliases[..k]), AliasBlocks(aliases[..k + 1]), AliasLine(aliases[k]));
      blocks := blocks + [AliasLine(aliases[k])];
    }
    assert aliases[..|aliases|] == aliases;
  }

  lemma {:induction false} AliasBlocksAppend(aliases: Entries, k: nat)
    requires k < |aliases|
    ensures AliasBlocks(aliases[..k + 1]) == AliasBlocks(aliases[..k]) + [AliasLine(aliases[k])]
    decreases k
  {
    if k > 0 {
      assert aliases[..k + 1][1..] == aliases[1..][..k];
      assert aliases[..k][1..] == aliases[1..][..k - 1];
      AliasBlocksAppend(aliases[1..], k - 1);
    }
  }
}
