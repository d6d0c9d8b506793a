// `AbstractCommand` (workspace/commands/__init__.py): a command's name, how its
// attributes are read, and the help text with parameter descriptions taken from its
// docstring and its parent class's docstring. Docstrings are inputs (`None` when a
// class has none).
module WsCommands {
  import opened Wrappers
  import opened Text
  import opened DocParams

  /** `name()`: the class name in lower case. */
  function Name(className: string): string
  {
    Lower(className)
  }

  /** The name keeps the length and every character but an ASCII capital, which becomes
      its small letter; naming a name again changes nothing. */
  lemma {:induction false} NameMeaning(className: string)
    ensures |Name(className)| == |className|
    ensures forall i :: 0 <= i < |className| ==>
      Name(className)[i] == (if 'A' <= className[i] <= 'Z' then (className[i] as int + 32) as char else className[i])
    ensures forall i :: 0 <= i < |className| ==> !('A' <= Name(className)[i] <= 'Z')
    ensures Name(Name(className)) == Name(className)
    decreases |className|
  {
    if className != [] {
      NameMeaning(className[1..]);
      var r := Name(className);
      assert r == [LowerChar(className[0])] + Name(className[1..]);
      forall i | 0 <= i < |className|
        ensures r[i] == (if 'A' <= className[i] <= 'Z' then (className[i] as int + 32) as char else className[i])
      {
        if i > 0 {
          assert r[i] == Name(className[1..])[i - 1];
        }
      }
      assert Lower(r) == [LowerChar(r[0])] + Lower(r[1..]);
      assert r[1..] == Name(className[1..]);
    }
  }

  /** Reading an attribute of a command: the keyword arguments it was built with, else
      the class attribute, else `None` (`__getattr__` swallows the AttributeError). */
  function Attr<V>(kwargs: map<string, V>, classAttrs: map<string, V>, attr: string): (r: Option<V>)
    ensures r.Some? <==> attr in kwargs || attr in classAttrs
    ensures attr in kwargs ==> r == Some(kwargs[attr])
    ensures attr !in kwargs && attr in classAttrs ==> r == Some(classAttrs[attr])
  {
    if attr in kwargs then Some(kwargs[attr])
    else if attr in classAttrs then Some(classAttrs[attr])
    else None
  }

  /** A docstring counts when it is present and non-empty. */
  predicate Given(doc: Option<string>) { doc.Some? && doc.value != "" }

  /** The pieces `docs` reads: the class's own, merged with the parent's when the class
      has none or differs from its parent; the merge adds the parent's parameters after
      its own, and takes the parent's description when its own is blank. A missing
      parent docstring fails on `.split` with an AttributeError. */
  function DocParts(own: Option<string>, parent: Option<string>): (r: Result<seq<string>>)
    ensures r.Ok? ==> r.value != []
  {
    if !Given(own) || parent != own then
      if parent.None? then Err("AttributeError")
      else
        var inherited := Split(parent.value, ParamTag);
        if !Given(own) then Ok(inherited) else Ok(Merge(Split(own.value, ParamTag), inherited))
    else Ok(Split(own.value, ParamTag))
  }

  /** A class's own pieces extended by its parent's parameter pieces, the parent's
      description standing in for a blank own one. */
  function Merge(mine: seq<string>, theirs: seq<string>): (r: seq<string>)
    requires mine != [] && theirs != []
    ensures r != []
  {
    var parts := mine + theirs[1..];
    if Strip(parts[0]) == "" then parts[0 := theirs[0]] else parts
  }

  lemma MergeShape(mine: seq<string>, theirs: seq<string>)
    requires mine != [] && theirs != []
    ensures Merge(mine, theirs)[1..] == mine[1..] + theirs[1..]
    ensures Merge(mine, theirs)[0] == if Strip(mine[0]) == "" then theirs[0] else mine[0]
  {
    var parts := mine + theirs[1..];
    assert parts[1..] == mine[1..] + theirs[1..];
  }

  /** Reading merged pieces: the chosen description, and both parameter maps with the
      parent's winning. */
  lemma ParsedMerge(mine: seq<string>, theirs: seq<string>)
    requires mine != [] && theirs != []
    requires Params(mine[1..]).Ok? && Params(theirs[1..]).Ok?
    ensures Parsed(Merge(mine, theirs)) == Ok((
      RStrip(if Strip(mine[0]) == "" then theirs[0] else mine[0], Whitespace),
      Params(mine[1..]).value + Params(theirs[1..]).value))
  {
    var merged := Merge(mine, theirs);
    MergeShape(mine, theirs);
    ParamsAppend(mine[1..], theirs[1..]);
    ParsedIs(merged, Params(mine[1..]).value + Params(theirs[1..]).value);
  }

  /** `docs()`: the help description and the parameter descriptions. */
  function DocsOf(own: Option<string>, parent: Option<string>): Result<(string, map<string, string>)>
  {
    match DocParts(own, parent)
    case Err(e) => Err(e)
    case Ok(parts) => Parsed(parts)
  }

  /** `docs()` as the source computes it: the list of pieces is built and extended in
      place, then read by the parameter loop. */
  method Docs(own: Option<string>, parent: Option<string>) returns (r: Result<(string, map<string, string>)>)
    ensures r == DocsOf(own, parent)
  {
    var docParts: seq<string> := [];
    var given := own.Some? && own.value != "";
    if given {
      docParts := Split(own.value, ParamTag);
    }
    if !given || parent != own {
      if parent.None? {
        return Err("AttributeError");
      }
      var inherited := Split(parent.value, ParamTag);
      if !given {
        docParts := inherited;
      } else {
        ghost var mine := docParts;
        docParts := docParts + inherited[1..];
        if Strip(docParts[0]) == "" {
          docParts := docParts[0 := inherited[0]];
        }
        assert docParts == Merge(mine, inherited);
      }
    }
    assert DocParts(own, parent) == Ok(docParts);
    var doc := RStrip(docParts[0], Whitespace);
    var params := ParseParams(docParts[1..]);
    if params.Err? {
      return Err(params.error);
    }
    r := Ok((doc, params.value));
  }

  /** Without a docstring of its own a command reads its parent's, which must exist. */
  lemma DocsInherited(own: Option<string>, parent: Option<string>)
    requires !Given(own)
    ensures parent.None? ==> DocsOf(own, parent) == Err("AttributeError")
    ensures parent.Some? ==> DocsOf(own, parent) == Parsed(Split(parent.value, ParamTag))
  {
  }

  /** A docstring like its parent's is read alone. */
  lemma DocsUnchanged(doc: string)
    requires doc != ""
    ensures DocsOf(Some(doc), Some(doc)) == Parsed(Split(doc, ParamTag))
  {
  }

  /** A docstring of its own, differing from the parent's: the description is its own
      unless blank, and the parameters are both sets, the parent's winning for a name
      documented twice. */
  lemma DocsMerged(own: string, parent: string)
    requires own != "" && own != parent
    requires Params(Split(own, ParamTag)[1..]).Ok? && Params(Split(parent, ParamTag)[1..]).Ok?
    ensures var mine := Split(own, ParamTag);
      var theirs := Split(parent, ParamTag);
      DocsOf(Some(own), Some(parent)) == Ok((
        RStrip(if Strip(mine[0]) == "" then theirs[0] else mine[0], Whitespace),
        Params(mine[1..]).value + Params(theirs[1..]).value))
  {
    var mine := Split(own, ParamTag);
    var theirs := Split(parent, ParamTag);
    assert DocParts(Some(own), Some(parent)) == Ok(Merge(mine, theirs));
    ParsedMerge(mine, theirs);
  }
}
