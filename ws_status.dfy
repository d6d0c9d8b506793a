// `wst status` (workspace/commands/status.py): the status of each repository, with
// a branch header when it has several branches, and nothing for a clean repository
// with one branch. The status text and branch list of each repository are inputs.
module WsStatus {
  import opened Wrappers
  import opened Text
  import WsScm

  /** One repository: its path, the status output read for it, and its branches. */
  datatype Repo = Repo(path: string, output: string, branches: seq<string>)

  /** `nothing_to_commit`: a clean status that is not ahead of its remote. */
  predicate NothingToCommit(output: string)
  {
    Contains(output, "nothing to commit") && !Contains(output, "Your branch is ahead of")
  }

  function Header(branches: seq<string>): string
  {
    "# Branches: " + Join(" ", branches)
  }

  /** The text written for one repository, if any. */
  function Shown(output: string, branches: seq<string>): Option<string>
  {
    var clean := NothingToCommit(output);
    if |branches| > 1 then
      if clean then Some(Header(branches)) else Some(Header(branches) + "\n#\n" + output)
    else if output != "" && !clean then Some(output)
    else None
  }

  /** With several branches the header is always written: alone for a clean status,
      else followed by a `#` line and the status; with one branch or none the status
      is written as it is, unless it is empty or clean. */
  lemma ShownMeaning(output: string, branches: seq<string>)
    ensures var r := Shown(output, branches);
      && (r.Some? <==> |branches| > 1 || (output != "" && !NothingToCommit(output)))
      && (|branches| > 1 ==> StartsWith(r.value, Header(branches)))
      && (|branches| > 1 && NothingToCommit(output) ==> r.value == Header(branches))
      && (|branches| > 1 && !NothingToCommit(output) ==>
            r.value[|Header(branches)|..] == "\n#\n" + output)
      && (|branches| <= 1 && r.Some? ==> r.value == output)
  {
    var h := Header(branches);
    if |branches| > 1 && !NothingToCommit(output) {
      assert (h + "\n#\n" + output)[..|h|] == h;
      assert (h + "\n#\n" + output)[|h|..] == "\n#\n" + output;
    }
  }

  /** What one repository contributes to the pager: its product name and text. */
  function Entry(repo: Repo): seq<(string, string)>
  {
    var shown := Shown(repo.output, repo.branches);
    if shown.Some? then [(WsScm.ProductName(repo.path), shown.value)] else []
  }

  /** The pager writes, in repository order. */
  function Writes(repos: seq<Repo>): seq<(string, string)>
  {
    Collect(repos, Entry)
  }

  /** The concatenation of what each element contributes, in order. */
  function Collect<T, U>(xs: seq<T>, f: T -> seq<U>): seq<U>
  {
    if xs == [] then [] else Collect(xs[..|xs| - 1], f) + f(xs[|xs| - 1])
  }

  lemma {:induction false} CollectMembers<T, U>(xs: seq<T>, f: T -> seq<U>, u: U)
    ensures u in Collect(xs, f) <==> exists i :: 0 <= i < |xs| && u in f(xs[i])
    decreases |xs|
  {
    if xs != [] {
      var prefix := xs[..|xs| - 1];
      CollectMembers(prefix, f, u);
      if u in Collect(prefix, f) {
        var i :| 0 <= i < |prefix| && u in f(prefix[i]);
        assert xs[i] == prefix[i];
      }
      if exists i :: 0 <= i < |xs| && u in f(xs[i]) {
        var i :| 0 <= i < |xs| && u in f(xs[i]);
        if i < |prefix| {
          assert prefix[i] == xs[i];
        }
      }
    }
  }

  predicate Shows(repo: Repo, name: string, text: string)
  {
    WsScm.ProductName(repo.path) == name && Shown(repo.output, repo.branches) == Some(text)
  }

  /** `Status.run`: one pass over the repositories. */
  method Run(repos: seq<Repo>) returns (writes: seq<(string, string)>)
    ensures writes == Writes(repos)
  {
    writes := [];
    for k := 0 to |repos|
      invariant writes == Writes(repos[..k])
    {
      assert repos[..k + 1][..k] == repos[..k];
      var repo := repos[k];
      var output := repo.output;
      var nothingToCommit := NothingToCommit(output);
      if |repo.branches| > 1 {
        if nothingToCommit {
          output := "# Branches: " + Join(" ", repo.branches);
          nothingToCommit := false;
        } else {
          output := "# Branches: " + Join(" ", repo.branches) + "\n#\n" + output;
        }
      }
      if output != "" && !nothingToCommit {
        writes := writes + [(WsScm.ProductName(repo.path), output)];
      }
    }
    assert repos[..|repos|] == repos;
  }

  /** A text is written for a product exactly when some repository of that product
      shows it. */
  lemma WritesMeaning(repos: seq<Repo>, name: string, text: string)
    ensures (name, text) in Writes(repos) <==>
      exists i :: 0 <= i < |repos| && Shows(repos[i], name, text)
  {
    CollectMembers(repos, Entry, (name, text));
    forall i | 0 <= i < |repos|
      ensures (name, text) in Entry(repos[i]) <==> Shows(repos[i], name, text)
    {
      EntryMeaning(repos[i], name, text);
    }
  }

  lemma EntryMeaning(repo: Repo, name: string, text: string)
    ensures (name, text) in Entry(repo) <==> Shows(repo, name, text)
  {
  }

  /** A clean repository with one branch writes nothing at all. */
  lemma {:induction false} CleanSingleBranchSilent(repos: seq<Repo>)
    requires forall i :: 0 <= i < |repos| ==> |repos[i].branches| <= 1 && NothingToCommit(repos[i].output)
    ensures Writes(repos) == []
  {
    if repos != [] {
      CleanSingleBranchSilent(repos[..|repos| - 1]);
      assert Entry(repos[|repos| - 1]) == [];
    }
  }
}
