// `expand_product_groups`: product names with `-name` exclusions and recursive group
// substitution, returned sorted and without duplicates. Both generations carry the
// same function.
module ProductGroups {
  import opened Wrappers
  import opened Text

  /** One entry of the `product_groups` configuration: a group name and its members. */
  datatype Group = Group(name: string, members: seq<string>)

  /** The configuration is a dict, so group names are distinct. */
  predicate DistinctNames(groups: seq<Group>)
  {
    forall i, j :: 0 <= i < j < |groups| ==> groups[i].name != groups[j].name
  }

  predicate IsGroup(groups: seq<Group>, n: string)
  {
    exists i :: 0 <= i < |groups| && groups[i].name == n
  }

  predicate Excluding(n: string) { StartsWith(n, "-") }

  /** `name.lstrip('-')`. */
  function Undash(n: string): string { LStrip(n, {'-'}) }

  /** The names of `names` that are not exclusions: `set(names)` after the first loop. */
  function Plain(names: seq<string>): (r: set<string>)
    ensures forall n :: n in r <==> n in names && !Excluding(n)
  {
    set n | n in names && !Excluding(n)
  }

  /** The expansion of a list of names; None when the recursion runs out of `fuel`
      (Python's recursion limit, reached by a group that contains itself). */
  function Expand(names: seq<string>, groups: seq<Group>, fuel: nat): Option<set<string>>
    decreases fuel, 0, 0
  {
    if fuel == 0 then None
    else
      match Excluded({}, names, groups, fuel - 1)
      case None => None
      case Some(ex) =>
        match Substitute(Plain(names), groups, groups, fuel - 1)
        case None => None
        case Some(u) => Some(u - ex)
  }

  /** The first loop: every `-name` adds the expansion of `name` to the exclusions. */
  function Excluded(acc: set<string>, names: seq<string>, groups: seq<Group>, fuel: nat): Option<set<string>>
    decreases fuel, 1, |names|
  {
    if names == [] then Some(acc)
    else if Excluding(names[0]) then
      match Expand([Undash(names[0])], groups, fuel)
      case None => None
      case Some(e) => Excluded(acc + e, names[1..], groups, fuel)
    else Excluded(acc, names[1..], groups, fuel)
  }

  /** The second loop, over the groups in configuration order: a group present in the
      names is replaced by the expansion of its members. */
  function Substitute(u: set<string>, todo: seq<Group>, groups: seq<Group>, fuel: nat): Option<set<string>>
    decreases fuel, 1, |todo|
  {
    if todo == [] then Some(u)
    else if todo[0].name in u then
      match Expand(todo[0].members, groups, fuel)
      case None => None
      case Some(e) => Substitute((u - {todo[0].name}) + e, todo[1..], groups, fuel)
    else Substitute(u, todo[1..], groups, fuel)
  }

  // ---- what the expansion contains ----

  /** An expansion never names a group: every group it met was replaced. */
  lemma {:induction false} ExpandHasNoGroups(names: seq<string>, groups: seq<Group>, fuel: nat)
    requires Expand(names, groups, fuel).Some?
    ensures forall n :: n in Expand(names, groups, fuel).value ==> !IsGroup(groups, n)
    decreases fuel, 0, 0
  {
    AllGroupsRefl(groups);
    SubstituteRemovesGroups(Plain(names), groups, groups, fuel - 1);
  }

  /** `todo` lists groups of the configuration (a suffix of it, in the loop). */
  predicate AllGroups(todo: seq<Group>, groups: seq<Group>)
  {
    forall i :: 0 <= i < |todo| ==> IsGroup(groups, todo[i].name)
  }

  lemma AllGroupsRefl(groups: seq<Group>)
    ensures AllGroups(groups, groups)
  {
    forall i | 0 <= i < |groups| ensures IsGroup(groups, groups[i].name) {
      assert groups[i].name == groups[i].name;
    }
  }

  lemma {:induction false} SubstituteRemovesGroups(u: set<string>, todo: seq<Group>, groups: seq<Group>, fuel: nat)
    requires Substitute(u, todo, groups, fuel).Some? && AllGroups(todo, groups)
    ensures forall n :: n in Substitute(u, todo, groups, fuel).value ==> n in u || !IsGroup(groups, n)
    ensures forall i :: 0 <= i < |todo| ==> todo[i].name !in Substitute(u, todo, groups, fuel).value
    decreases fuel, 1, |todo|
  {
    if todo != [] {
      var v := Substitute(u, todo, groups, fuel).value;
      assert AllGroups(todo[1..], groups) by {
        forall i | 0 <= i < |todo[1..]| ensures IsGroup(groups, todo[1..][i].name) {
          assert todo[1..][i] == todo[i + 1];
        }
      }
      assert IsGroup(groups, todo[0].name);
      if todo[0].name in u {
        var e := Expand(todo[0].members, groups, fuel).value;
        ExpandHasNoGroups(todo[0].members, groups, fuel);
        SubstituteRemovesGroups((u - {todo[0].name}) + e, todo[1..], groups, fuel);
        forall i | 0 <= i < |todo| ensures todo[i].name !in v {
          if i > 0 { assert todo[1..][i - 1] == todo[i]; }
        }
      } else {
        SubstituteRemovesGroups(u, todo[1..], groups, fuel);
        forall i | 0 <= i < |todo| ensures todo[i].name !in v {
          if i > 0 { assert todo[1..][i - 1] == todo[i]; }
        }
      }
    }
  }

  /** A name that is no group stays through the substitution. */
  lemma {:induction false} SubstituteKeeps(u: set<string>, todo: seq<Group>, groups: seq<Group>, fuel: nat, n: string)
    requires Substitute(u, todo, groups, fuel).Some?
    requires n in u && forall i :: 0 <= i < |todo| ==> todo[i].name != n
    ensures n in Substitute(u, todo, groups, fuel).value
    decreases |todo|
  {
    if todo != [] {
      assert forall i :: 0 <= i < |todo| - 1 ==> todo[1..][i] == todo[i + 1];
      if todo[0].name in u {
        SubstituteKeeps((u - {todo[0].name}) + Expand(todo[0].members, groups, fuel).value, todo[1..], groups, fuel, n);
      } else {
        SubstituteKeeps(u, todo[1..], groups, fuel, n);
      }
    }
  }

  /** A group present in the names contributes its whole expansion. */
  lemma {:induction false} SubstituteAdds(u: set<string>, todo: seq<Group>, groups: seq<Group>, fuel: nat, k: nat)
    requires Substitute(u, todo, groups, fuel).Some?
    requires k < |todo| && todo[k].name in u && DistinctNames(todo) && AllGroups(todo, groups)
    ensures Expand(todo[k].members, groups, fuel).Some?
    ensures Expand(todo[k].members, groups, fuel).value <= Substitute(u, todo, groups, fuel).value
    decreases |todo|
  {
    assert forall i :: 0 <= i < |todo| - 1 ==> todo[1..][i] == todo[i + 1];
    assert AllGroups(todo[1..], groups) by {
      forall i | 0 <= i < |todo[1..]| ensures IsGroup(groups, todo[1..][i].name) {
        assert todo[1..][i] == todo[i + 1];
      }
    }
    var e := Expand(todo[0].members, groups, fuel);
    if k == 0 {
      ExpandHasNoGroups(todo[0].members, groups, fuel);
      var u' := (u - {todo[0].name}) + e.value;
      forall n | n in e.value ensures n in Substitute(u, todo, groups, fuel).value {
        assert forall i :: 0 <= i < |todo[1..]| ==> todo[1..][i].name != n by {
          forall i | 0 <= i < |todo[1..]| ensures todo[1..][i].name != n {
            assert !IsGroup(groups, n);
            assert IsGroup(groups, todo[i + 1].name);
          }
        }
        SubstituteKeeps(u', todo[1..], groups, fuel, n);
      }
    } else {
      assert todo[0].name != todo[k].name;
      if todo[0].name in u {
        SubstituteAdds((u - {todo[0].name}) + e.value, todo[1..], groups, fuel, k - 1);
      } else {
        SubstituteAdds(u, todo[1..], groups, fuel, k - 1);
      }
    }
  }

  /** Every `-name` excludes its full expansion. */
  lemma {:induction false} ExcludedCovers(acc: set<string>, names: seq<string>, groups: seq<Group>, fuel: nat, i: nat)
    requires Excluded(acc, names, groups, fuel).Some?
    requires i < |names| && Excluding(names[i])
    ensures Expand([Undash(names[i])], groups, fuel).Some?
    ensures Expand([Undash(names[i])], groups, fuel).value <= Excluded(acc, names, groups, fuel).value
    decreases |names|
  {
    if i == 0 {
      ExcludedGrows(acc + Expand([Undash(names[0])], groups, fuel).value, names[1..], groups, fuel);
    } else {
      assert names[1..][i - 1] == names[i];
      if Excluding(names[0]) {
        ExcludedCovers(acc + Expand([Undash(names[0])], groups, fuel).value, names[1..], groups, fuel, i - 1);
      } else {
        ExcludedCovers(acc, names[1..], groups, fuel, i - 1);
      }
    }
  }

  lemma {:induction false} ExcludedGrows(acc: set<string>, names: seq<string>, groups: seq<Group>, fuel: nat)
    requires Excluded(acc, names, groups, fuel).Some?
    ensures acc <= Excluded(acc, names, groups, fuel).value
    decreases |names|
  {
    if names != [] {
      if Excluding(names[0]) {
        ExcludedGrows(acc + Expand([Undash(names[0])], groups, fuel).value, names[1..], groups, fuel);
      } else {
        ExcludedGrows(acc, names[1..], groups, fuel);
      }
    }
  }

  /** What the expansion promises: no group names and nothing excluded; a name that is
      neither a group nor an exclusion passes through unless it is excluded; a group in
      the names brings in the expansion of its members. */
  lemma ExpansionMeaning(names: seq<string>, groups: seq<Group>, fuel: nat)
    requires Expand(names, groups, fuel).Some? && DistinctNames(groups)
    ensures var r := Expand(names, groups, fuel).value;
      && (forall n :: n in r ==> !IsGroup(groups, n))
      && (forall i :: 0 <= i < |names| && Excluding(names[i]) ==>
            Expand([Undash(names[i])], groups, fuel - 1).Some?
            && Expand([Undash(names[i])], groups, fuel - 1).value !! r)
      && (forall n :: n in names && !Excluding(n) && !IsGroup(groups, n) ==>
            (n in r <==> n !in Excluded({}, names, groups, fuel - 1).value))
      && (forall k :: 0 <= k < |groups| && groups[k].name in names && !Excluding(groups[k].name) ==>
            Expand(groups[k].members, groups, fuel - 1).Some?
            && Expand(groups[k].members, groups, fuel - 1).value - Excluded({}, names, groups, fuel - 1).value <= r)
  {
    var ex := Excluded({}, names, groups, fuel - 1).value;
    var u := Substitute(Plain(names), groups, groups, fuel - 1).value;
    ExpandHasNoGroups(names, groups, fuel);
    AllGroupsRefl(groups);
    forall i | 0 <= i < |names| && Excluding(names[i])
      ensures Expand([Undash(names[i])], groups, fuel - 1).Some?
      ensures Expand([Undash(names[i])], groups, fuel - 1).value !! u - ex
    {
      ExcludedCovers({}, names, groups, fuel - 1, i);
    }
    forall n | n in names && !Excluding(n) && !IsGroup(groups, n) ensures n in u {
      SubstituteKeeps(Plain(names), groups, groups, fuel - 1, n);
    }
    forall k | 0 <= k < |groups| && groups[k].name in names && !Excluding(groups[k].name)
      ensures Expand(groups[k].members, groups, fuel - 1).Some?
      ensures Expand(groups[k].members, groups, fuel - 1).value <= u
    {
      SubstituteAdds(Plain(names), groups, groups, fuel - 1, k);
    }
  }

  // ---- the implementation ----

  /** The elements of a set, in some order. */
  method Elements(s: set<string>) returns (q: seq<string>)
    ensures forall x :: x in q <==> x in s
  {
    q := [];
    var rest := s;
    while rest != {}
      invariant rest <= s
      invariant forall x :: x in s <==> x in q || x in rest
      decreases |rest|
    {
      var x :| x in rest;
      q := q + [x];
      rest := rest - {x};
    }
  }

  /** The set of a sequence's elements. */
  lemma SetOfSeq(q: seq<string>, e: set<string>)
    requires forall x :: x in q <==> x in e
    ensures (set x | x in q) == e
  {
  }

  /** `expand_product_groups(names)`: the first loop collects the exclusions, the
      second replaces groups in configuration order, and the result is sorted. */
  method ExpandProductGroups(names: seq<string>, groups: seq<Group>, fuel: nat) returns (r: Option<seq<string>>)
    ensures r.Some? <==> Expand(names, groups, fuel).Some?
    ensures r.Some? ==> StrictlySorted(r.value)
    ensures r.Some? ==> forall x :: x in r.value <==> x in Expand(names, groups, fuel).value
    decreases fuel, 0
  {
    if fuel == 0 {
      return None;
    }
    var exclude := CollectExclusions(names, groups, fuel - 1);
    if exclude.None? {
      return None;
    }
    var unique := SubstituteGroups(names, groups, fuel - 1);
    if unique.None? {
      return None;
    }
    var q := Elements(unique.value - exclude.value);
    r := Some(SortedUnique(q));
  }

  /** The first loop of `expand_product_groups`: the expansion of every `-name`. */
  method CollectExclusions(names: seq<string>, groups: seq<Group>, fuel: nat) returns (r: Option<set<string>>)
    ensures r == Excluded({}, names, groups, fuel)
    decreases fuel, 1
  {
    var exclude: set<string> := {};
    var i := 0;
    while i < |names|
      invariant i <= |names|
      invariant Excluded({}, names, groups, fuel) == Excluded(exclude, names[i..], groups, fuel)
    {
      assert names[i..][0] == names[i] && names[i..][1..] == names[i + 1..];
      if Excluding(names[i]) {
        var e := ExpandProductGroups([Undash(names[i])], groups, fuel);
        if e.None? {
          return None;
        }
        SetOfSeq(e.value, Expand([Undash(names[i])], groups, fuel).value);
        exclude := exclude + (set x | x in e.value);
      }
      i := i + 1;
    }
    r := Some(exclude);
  }

  /** The second loop of `expand_product_groups`: each group present in the names,
      in configuration order, replaced by the expansion of its members. */
  method SubstituteGroups(names: seq<string>, groups: seq<Group>, fuel: nat) returns (r: Option<set<string>>)
    ensures r == Substitute(Plain(names), groups, groups, fuel)
    decreases fuel, 1
  {
    var unique := Plain(names);
    var j := 0;
    while j < |groups|
      invariant j <= |groups|
      invariant Substitute(Plain(names), groups, groups, fuel) == Substitute(unique, groups[j..], groups, fuel)
    {
      assert groups[j..][0] == groups[j] && groups[j..][1..] == groups[j + 1..];
      if groups[j].name in unique {
        var e := ExpandProductGroups(groups[j].members, groups, fuel);
        if e.None? {
          return None;
        }
        SetOfSeq(e.value, Expand(groups[j].members, groups, fuel).value);
        unique := (unique - {groups[j].name}) + (set x | x in e.value);
      }
      j := j + 1;
    }
    r := Some(unique);
  }
}
