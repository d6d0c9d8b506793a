// `workspace setup` of the older generation (src/workspace/commands/setup.py): the same
// bashrc filter as the current one, but with its own choice of functions and aliases.
module LegacySetup {
  import opened Wrappers
  import opened Text
  import opened SetupScript

  /** A command given as quoted text (a shell snippet) gets no bash function. */
  predicate Quoted(c: string)
  {
    StartsWith(c, "'") || StartsWith(c, "\"")
  }

  predicate Unquoted(c: string) { !Quoted(c) }

  /** The commands that get a bash function, sorted. */
  function Functions(items: Entries): seq<string>
  {
    Sorted(Filter(Values(items), Unquoted))
  }

  /** The functions are sorted; each unquoted command value occurs among them as often as
      in the table, and no quoted one does. Unlike the current generation, a command
      starting with a space does get a function. */
  lemma FunctionsMeaning(items: Entries, f: string)
    ensures SortedBy(Functions(items), Identity)
    ensures multiset(Functions(items))[f] == if Quoted(f) then 0 else multiset(Values(items))[f]
  {
    FilterMultiset(Values(items), Unquoted, f);
  }

  function Name(item: (string, string)): string { item.0 }

  predicate Public(item: (string, string)) { !StartsWith(item.0, "_") }

  /** The aliases written: sorted by alias name, without those starting with `_`. */
  function Aliases(items: Entries): Entries
  {
    Filter(SortBy(items, Name), Public)
  }

  lemma AliasesMeaning(items: Entries, e: (string, string))
    ensures SortedBy(Aliases(items), Name)
    ensures multiset(Aliases(items))[e] == if StartsWith(e.0, "_") then 0 else multiset(items)[e]
  {
    var sorted := SortBy(items, Name);
    FilterSorted(sorted, Public, Name);
    FilterMultiset(sorted, Public, e);
  }

  /** With distinct alias names the sort leaves them strictly ascending, so the order of
      the aliases is fully determined. */
  lemma AliasesAscending(items: Entries)
    requires Distinct(Keys(items))
    ensures forall i, j :: 0 <= i < j < |Aliases(items)| ==> Lt(Aliases(items)[i].0, Aliases(items)[j].0)
  {
    var r := Aliases(items);
    AliasesMeaning(items, ("", ""));
    forall i, j | 0 <= i < j < |r| ensures Lt(r[i].0, r[j].0) {
      assert !Lt(r[j].0, r[i].0);
      AliasesDistinct(items, i, j);
      LtTotal(r[i].0, r[j].0);
    }
  }

  /** Two aliases at different places have different names. */
  lemma AliasesDistinct(items: Entries, i: nat, j: nat)
    requires Distinct(Keys(items)) && i < j < |Aliases(items)|
    ensures Aliases(items)[i].0 != Aliases(items)[j].0
  {
    var r := Aliases(items);
    AliasesMeaning(items, r[i]);
    AliasesMeaning(items, r[j]);
    assert r[i] in multiset(r) && r[j] in multiset(r);
    DistinctKeysUnique(items, r[i], r[j]);
    TwiceIn(r, i, j);
    OnceInDistinct(items, r[i]);
  }

  /** Two entries of a dictionary with the same key are the same entry. */
  lemma {:induction false} DistinctKeysUnique(items: Entries, a: (string, string), b: (string, string))
    requires Distinct(Keys(items)) && a in items && b in items
    ensures a.0 == b.0 ==> a == b
    decreases |items|
  {
    KeyIn(items[1..], a);
    KeyIn(items[1..], b);
    if a != items[0] && b != items[0] {
      assert a in items[1..] && b in items[1..];
      DistinctKeysUnique(items[1..], a, b);
    } else if a == items[0] && b != items[0] {
      assert b in items[1..];
    } else if a != items[0] && b == items[0] {
      assert a in items[1..];
    }
  }

  lemma {:induction false} KeyIn(items: Entries, e: (string, string))
    ensures e in items ==> e.0 in Keys(items)
    decreases |items|
  {
    if items != [] {
      KeyIn(items[1..], e);
      if e in items && e != items[0] {
        assert e in items[1..];
      }
    }
  }

  /** An entry of a dictionary occurs in it once. */
  lemma {:induction false} OnceInDistinct(items: Entries, e: (string, string))
    requires Distinct(Keys(items))
    ensures multiset(items)[e] <= 1
    decreases |items|
  {
    if items != [] {
      OnceInDistinct(items[1..], e);
      assert items == [items[0]] + items[1..];
      if e == items[0] {
        KeyIn(items[1..], e);
        assert e !in items[1..];
      }
    }
  }

  lemma TwiceIn(s: Entries, i: nat, j: nat)
    requires i < j < |s|
    ensures s[i] == s[j] ==> multiset(s)[s[i]] >= 2
  {
    assert s == s[..j] + s[j..];
    assert s[i] in s[..j];
    assert s[j..][0] == s[j];
    assert multiset(s) == multiset(s[..j]) + multiset(s[j..]);
  }

  /** One alias per entry, its command as it is. */
  function AliasBlocks(aliases: Entries): (r: seq<Block>)
    ensures |r| == |aliases|
    ensures forall i :: 0 <= i < |r| ==> r[i] == Alias(aliases[i].0, aliases[i].1)
  {
    if aliases == [] then [] else [Alias(aliases[0].0, aliases[0].1)] + AliasBlocks(aliases[1..])
  }

  /** What `setup_workspace` writes to `~/.wstrc` for the given command table. */
  function Wstrc(commands: bool, commandsWithAliases: bool, workspaceDir: string, items: Entries): seq<Block>
  {
    [WsFunction(workspaceDir)]
      + (if commands || commandsWithAliases then [Blank] + FunctionBlocks(Functions(items)) else [])
      + (if commandsWithAliases then [Blank] + AliasBlocks(Aliases(items)) + [AutoComplete] else [])
  }

  /** `setup_workspace`: the new `~/.bashrc`, and the new `~/.wstrc` (`None` once it is
      removed by `uninstall`). The extra commands are merged into the table first. */
  method Workspace(commands: bool, commandsWithAliases: bool, uninstall: bool, bashrc: Option<string>,
                   workspaceDir: string, table: Entries, additional: Entries)
    returns (newBashrc: string, wstrc: Option<seq<Block>>)
    ensures newBashrc == Rewritten(bashrc, uninstall)
    ensures wstrc == if uninstall then None else Some(Wstrc(commands, commandsWithAliases, workspaceDir, Update(table, additional)))
  {
    newBashrc := WriteBashrc(bashrc, uninstall);
    if uninstall {
      wstrc := None;
      return;
    }

    var items := table;
    if additional != [] {
      items := Update(table, additional);
    }
    assert items == Update(table, additional);
    var functions: seq<Block> := [];
    if commands || commandsWithAliases {
      functions := WriteFunctions([Blank], Functions(items));
    }
    var aliases: seq<Block> := [];
    if commandsWithAliases {
      aliases := WriteAliases([Blank], Aliases(items));
      aliases := aliases + [AutoComplete];
    }
    wstrc := Some([WsFunction(workspaceDir)] + functions + aliases);
  }

  /** The loop writing one alias per entry. */
  method WriteAliases(head: seq<Block>, aliases: Entries) returns (blocks: seq<Block>)
    ensures blocks == head + AliasBlocks(aliases)
  {
    blocks := head;
    for k := 0 to |aliases|
      invariant blocks == head + AliasBlocks(aliases[..k])
    {
      AliasBlocksAppend(aliases, k);
      blocks := blocks + [Alias(aliases[k].0, aliases[k].1)];
    }
    assert aliases[..|aliases|] == aliases;
  }

  lemma {:induction false} AliasBlocksAppend(aliases: Entries, k: nat)
    requires k < |aliases|
    ensures AliasBlocks(aliases[..k + 1]) == AliasBlocks(aliases[..k]) + [Alias(aliases[k].0, aliases[k].1)]
    decreases k
  {
    if k > 0 {
      assert aliases[..k + 1][1..] == aliases[1..][..k];
      assert aliases[..k][1..] == aliases[1..][..k - 1];
      AliasBlocksAppend(aliases[1..], k - 1);
    }
  }
}
