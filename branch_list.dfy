// The non-verbose `git branch` listing, shared by both generations of the SCM
// adapter: the starred (checked-out) branch goes to the front, the others keep
// their order.
module BranchList {
  import opened Wrappers
  import opened Text

  /** A line of the listing once stripped. */
  datatype Entry = Starred(name: string) | Listed(name: string) | Blank

  /** `branch.strip()`, then the star test. The current generation strips `'* '` from
      both ends of a starred line; the older one strips `'*'` and then whitespace. */
  function Classify(line: string, legacy: bool): Entry
  {
    var b := Strip(line);
    if StartsWith(b, "*") then Starred(if legacy then Strip(StripChars(b, {'*'})) else StripChars(b, {'*', ' '}))
    else if b != "" then Listed(b)
    else Blank
  }

  /** A line is blank exactly when it strips to nothing, starred exactly when it
      starts with `*` once stripped, and otherwise listed under its stripped text. */
  lemma ClassifyMeaning(line: string, legacy: bool)
    ensures Classify(line, legacy).Blank? <==> Strip(line) == ""
    ensures Classify(line, legacy).Starred? <==> StartsWith(Strip(line), "*")
    ensures Classify(line, legacy).Listed? ==> Classify(line, legacy).name == Strip(line)
  {
    var b := Strip(line);
    if b == "" {
      assert !StartsWith(b, "*");
    }
  }

  /** Each line's entry, in order. */
  function Entries(lines: seq<string>, legacy: bool): (r: seq<Entry>)
    ensures |r| == |lines|
  {
    if lines == [] then [] else [Classify(lines[0], legacy)] + Entries(lines[1..], legacy)
  }

  lemma {:induction false} EntriesAt(lines: seq<string>, legacy: bool, i: nat)
    requires i < |lines|
    ensures Entries(lines, legacy)[i] == Classify(lines[i], legacy)
  {
    if i > 0 {
      EntriesAt(lines[1..], legacy, i - 1);
    }
  }

  /** One entry: `insert(0, …)` for the starred one, `append` otherwise. */
  function Add(branches: seq<string>, e: Entry): seq<string>
  {
    match e
    case Starred(n) => [n] + branches
    case Listed(n) => branches + [n]
    case Blank => branches
  }

  /** The list after the given entries, as the loop builds it. */
  function Listing(es: seq<Entry>): seq<string>
  {
    if es == [] then [] else Add(Listing(es[..|es| - 1]), es[|es| - 1])
  }

  /** Names of the starred entries, the last one first. */
  function Stars(es: seq<Entry>): seq<string>
  {
    if es == [] then []
    else (if es[|es| - 1].Starred? then [es[|es| - 1].name] else []) + Stars(es[..|es| - 1])
  }

  /** The other named entries, in their order. */
  function Others(es: seq<Entry>): seq<string>
  {
    if es == [] then []
    else Others(es[..|es| - 1]) + (if es[|es| - 1].Listed? then [es[|es| - 1].name] else [])
  }

  /** The starred branch comes first and every other listed branch follows in order. */
  lemma {:induction false} ListingSplit(es: seq<Entry>)
    ensures Listing(es) == Stars(es) + Others(es)
  {
    if es != [] {
      var p, x := es[..|es| - 1], es[|es| - 1];
      ListingSplit(p);
      match x
      case Starred(n) =>
        assert Listing(es) == [n] + Listing(p);
        assert Stars(es) == [n] + Stars(p);
        assert Others(es) == Others(p);
      case Listed(n) =>
        assert Listing(es) == Listing(p) + [n];
        assert Stars(es) == Stars(p);
        assert Others(es) == Others(p) + [n];
      case Blank =>
    }
  }

  lemma {:induction false} NoStars(es: seq<Entry>)
    requires forall i :: 0 <= i < |es| ==> !es[i].Starred?
    ensures Stars(es) == []
  {
    if es != [] {
      NoStars(es[..|es| - 1]);
    }
  }

  lemma {:induction false} StarsAfter(a: seq<Entry>, b: seq<Entry>)
    requires forall i :: 0 <= i < |b| ==> !b[i].Starred?
    ensures Stars(a + b) == Stars(a)
  {
    if b == [] {
      assert a + b == a;
    } else {
      assert (a + b)[..|a + b| - 1] == a + b[..|b| - 1];
      StarsAfter(a, b[..|b| - 1]);
    }
  }

  /** With exactly one starred entry, its name is the first branch, followed by the
      other branches in their order. */
  lemma OneStarFirst(before: seq<Entry>, name: string, after: seq<Entry>)
    requires forall i :: 0 <= i < |before| ==> !before[i].Starred?
    requires forall i :: 0 <= i < |after| ==> !after[i].Starred?
    ensures Listing(before + [Starred(name)] + after) == [name] + Others(before + after)
  {
    var es := before + [Starred(name)] + after;
    ListingSplit(es);
    NoStars(before);
    StarsAfter(before + [Starred(name)], after);
    assert (before + [Starred(name)])[..|before| + 1 - 1] == before;
    assert Stars(before + [Starred(name)]) == [name];
    OthersSkipStar(before, name, after);
  }

  lemma {:induction false} OthersSkipStar(a: seq<Entry>, name: string, b: seq<Entry>)
    ensures Others(a + [Starred(name)] + b) == Others(a + b)
  {
    if b == [] {
      assert (a + [Starred(name)])[..|a|] == a;
      assert a + [] == a;
      assert a + [Starred(name)] + [] == a + [Starred(name)];
    } else {
      var b' := b[..|b| - 1];
      assert (a + [Starred(name)] + b)[..|a| + |b|] == a + [Starred(name)] + b';
      assert (a + b)[..|a + b| - 1] == a + b';
      OthersSkipStar(a, name, b');
    }
  }

  /** `current_branch()` of the current generation: the first branch, if any. */
  function CurrentBranch(es: seq<Entry>): (r: Option<string>)
    ensures Stars(es) != [] ==> r == Some(Stars(es)[0])
    ensures Stars(es) == [] && Others(es) != [] ==> r == Some(Others(es)[0])
    ensures Stars(es) == [] && Others(es) == [] ==> r == None
  {
    ListingSplit(es);
    var b := Listing(es);
    if b == [] then None else Some(b[0])
  }

  /** One more line adds its entry to the listing built so far. */
  lemma ListingStep(lines: seq<string>, legacy: bool, i: nat)
    requires i < |lines|
    ensures Listing(Entries(lines, legacy)[..i + 1]) == Add(Listing(Entries(lines, legacy)[..i]), Classify(lines[i], legacy))
  {
    var es := Entries(lines, legacy);
    EntriesAt(lines, legacy, i);
    assert es[..i + 1][..i] == es[..i];
  }

  /** The listing of no lines is empty, and that of all the lines is the whole listing. */
  lemma ListingEnds(lines: seq<string>, legacy: bool)
    ensures Listing(Entries(lines, legacy)[..0]) == []
    ensures Listing(Entries(lines, legacy)[..|lines|]) == Listing(Entries(lines, legacy))
  {
    var es := Entries(lines, legacy);
    assert es[..0] == [];
    assert es[..|lines|] == es;
  }

  /** The body of that loop: `insert(0, …)` for the starred line, `append` for another. */
  method Place(branches: seq<string>, e: Entry) returns (r: seq<string>)
    ensures e.Starred? ==> r == [e.name] + branches
    ensures e.Listed? ==> r == branches + [e.name]
    ensures e.Blank? ==> r == branches
  {
    r := branches;
    match e {
      case Starred(n) => r := [n] + branches;
      case Listed(n) => r := branches + [n];
      case Blank =>
    }
  }

  /** The loop of `all_branches()` over the lines of `git branch`. */
  method ListLines(lines: seq<string>, legacy: bool) returns (branches: seq<string>)
    ensures branches == Listing(Entries(lines, legacy))
  {
    ListingEnds(lines, legacy);
    branches := [];
    for i := 0 to |lines|
      invariant branches == Listing(Entries(lines, legacy)[..i])
    {
      var e := Classify(lines[i], legacy);
      ListingStep(lines, legacy, i);
      branches := Place(branches, e);
    }
  }

  /** `all_branches()`; an empty output lists nothing. */
  method AllBranches(output: string, legacy: bool) returns (branches: seq<string>)
    ensures branches == (if output == "" then [] else Listing(Entries(Split(output, "\n"), legacy)))
  {
    branches := [];
    if output != "" {
      branches := ListLines(Split(output, "\n"), legacy);
    }
  }
}
