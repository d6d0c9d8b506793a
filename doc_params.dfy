// The `:param` parser shared by `split_doc` (src/workspace/utils.py:146-163) and
// `AbstractCommand.docs` (workspace/commands/__init__.py:48-56): a docstring is cut at
// each `:param `; the first piece is the description, and every later piece names a
// parameter by the last word before its first `:` and describes it by the rest.
module DocParams {
  import opened Wrappers
  import opened Text

  const ParamTag := ":param "

  /** The index of the first `:` of a piece, if any. */
  function Colon(part: string): Option<nat>
  {
    FindFrom(part, ":", 0)
  }

  /** One `:param` piece: `type_param, param_doc = part.split(':', 1)` fails with a
      ValueError without a `:`, and `type_param.split()[-1]` with an IndexError when
      nothing but whitespace precedes it. */
  function ParamOf(part: string): Result<(string, string)>
  {
    match Colon(part)
    case None => Err("ValueError")
    case Some(i) =>
      var words := Words(part[..i]);
      if words == [] then Err("IndexError")
      else Ok((words[|words| - 1], Strip(part[i + 1..])))
  }

  /** A piece parses exactly when it has a `:` with a word before it; the name is then
      that word, free of whitespace and of `:`, and the description is the stripped
      text after the `:`. */
  lemma ParamOfMeaning(part: string)
    ensures ParamOf(part).Ok? <==> Colon(part).Some? && Words(part[..Colon(part).value]) != []
    ensures ParamOf(part).Err? ==> ParamOf(part).error == (if Colon(part).None? then "ValueError" else "IndexError")
    ensures ParamOf(part).Ok? ==>
      var i := Colon(part).value;
      var name := ParamOf(part).value.0;
      && name == Words(part[..i])[|Words(part[..i])| - 1]
      && name != "" && NoWhitespace(name) && ':' !in name
      && ParamOf(part).value.1 == Strip(part[i + 1..])
  {
    match Colon(part)
    case None =>
    case Some(i) =>
      var before := part[..i];
      var words := Words(before);
      if words != [] {
        WordsHaveNoWhitespace(before);
        assert ':' !in before by {
          forall j | 0 <= j < |before| ensures before[j] != ':' {
            assert !OccursAt(part, ":", j);
            assert part[j..j + 1] == [part[j]];
          }
        }
        WordsFree(before, ':');
      }
  }

  /** A character missing from a text is missing from its words. */
  lemma {:induction false} WordsFree(s: string, c: char)
    requires c !in s
    ensures forall k :: 0 <= k < |Words(s)| ==> c !in Words(s)[k]
    decreases |s|
  {
    var t := LStrip(s, Whitespace);
    if t != [] {
      var n := WordLength(t);
      var rest := t[n..];
      assert c !in rest && c !in t[..n] by {
        assert t == s[|s| - |t|..];
      }
      WordsFree(rest, c);
      assert Words(s) == [t[..n]] + Words(rest);
      FreeCons(t[..n], Words(rest), c);
    }
  }

  lemma FreeCons(w: string, ws: seq<string>, c: char)
    requires c !in w && forall k :: 0 <= k < |ws| ==> c !in ws[k]
    ensures forall k :: 0 <= k < |[w] + ws| ==> c !in ([w] + ws)[k]
  {
    forall k | 0 < k < |[w] + ws| ensures c !in ([w] + ws)[k] {
      assert ([w] + ws)[k] == ws[k - 1];
    }
  }

  /** The parameter map of the pieces after the description: later pieces overwrite
      earlier ones with the same name, and the first failing piece fails the whole. */
  function Params(parts: seq<string>): Result<map<string, string>>
  {
    Gather(parts, ParamOf)
  }

  /** The map read from pieces by `parse`, each entry overwriting any earlier one. */
  function Gather(parts: seq<string>, parse: string -> Result<(string, string)>): Result<map<string, string>>
  {
    if parts == [] then Ok(map[])
    else
      match Gather(parts[..|parts| - 1], parse)
      case Err(e) => Err(e)
      case Ok(m) =>
        match parse(parts[|parts| - 1])
        case Err(e) => Err(e)
        case Ok(p) => Ok(m[p.0 := p.1])
  }

  /** The loop over the `:param` pieces. */
  method ParseParams(parts: seq<string>) returns (r: Result<map<string, string>>)
    ensures r == Params(parts)
  {
    var params: map<string, string> := map[];
    for k := 0 to |parts|
      invariant Gather(parts[..k], ParamOf) == Ok(params)
    {
      assert parts[..k + 1][..k] == parts[..k];
      var p := ParamOf(parts[k]);
      if p.Err? {
        FailureStays(parts, ParamOf, k + 1, p.error);
        return Err(p.error);
      }
      params := params[p.value.0 := p.value.1];
    }
    assert parts[..|parts|] == parts;
    r := Ok(params);
  }

  /** Once a prefix fails, the whole list fails with the same error. */
  lemma {:induction false} FailureStays(parts: seq<string>, parse: string -> Result<(string, string)>, k: nat, e: string)
    requires k <= |parts| && Gather(parts[..k], parse) == Err(e)
    ensures Gather(parts, parse) == Err(e)
    decreases |parts| - k
  {
    if k < |parts| {
      assert parts[..k + 1][..k] == parts[..k];
      FailureStays(parts, parse, k + 1, e);
    } else {
      assert parts[..k] == parts;
    }
  }

  /** The parameters fail exactly when some piece fails. */
  lemma ParamsFail(parts: seq<string>)
    ensures Params(parts).Err? <==> exists i :: 0 <= i < |parts| && ParamOf(parts[i]).Err?
  {
    GatherFails(parts, ParamOf);
  }

  lemma {:induction false} GatherFails(parts: seq<string>, parse: string -> Result<(string, string)>)
    ensures Gather(parts, parse).Err? <==> exists i :: 0 <= i < |parts| && parse(parts[i]).Err?
    decreases |parts|
  {
    if parts != [] {
      var init := parts[..|parts| - 1];
      GatherFails(init, parse);
      if exists i :: 0 <= i < |init| && parse(init[i]).Err? {
        var i :| 0 <= i < |init| && parse(init[i]).Err?;
        assert parts[i] == init[i];
      }
      if exists i :: 0 <= i < |parts| && parse(parts[i]).Err? {
        var i :| 0 <= i < |parts| && parse(parts[i]).Err?;
        if i < |init| {
          assert init[i] == parts[i];
        }
      }
    }
  }

  /** When every piece parses, a name is documented exactly when some piece names it,
      and its description comes from the last piece that names it. */
  lemma ParamsLastWins(parts: seq<string>, name: string)
    requires Params(parts).Ok?
    ensures name in Params(parts).value <==>
      exists i :: 0 <= i < |parts| && ParamOf(parts[i]).Ok? && ParamOf(parts[i]).value.0 == name
    ensures name in Params(parts).value ==> exists i ::
      && 0 <= i < |parts| && ParamOf(parts[i]) == Ok((name, Params(parts).value[name]))
      && forall j :: i < j < |parts| ==> ParamOf(parts[j]).Ok? && ParamOf(parts[j]).value.0 != name
  {
    GatherHas(parts, ParamOf, name);
    if name in Params(parts).value {
      GatherLastWins(parts, ParamOf, name);
    }
  }

  lemma {:induction false} GatherHas(parts: seq<string>, parse: string -> Result<(string, string)>, name: string)
    requires Gather(parts, parse).Ok?
    ensures name in Gather(parts, parse).value <==>
      exists i :: 0 <= i < |parts| && parse(parts[i]).Ok? && parse(parts[i]).value.0 == name
    decreases |parts|
  {
    if parts != [] {
      var init := parts[..|parts| - 1];
      assert Gather(init, parse).Ok?;
      GatherHas(init, parse, name);
      var p := parse(parts[|parts| - 1]).value;
      assert Gather(parts, parse).value == Gather(init, parse).value[p.0 := p.1];
      if name in Gather(parts, parse).value && p.0 != name {
        var i :| 0 <= i < |init| && parse(init[i]).Ok? && parse(init[i]).value.0 == name;
        assert parts[i] == init[i];
      }
      if exists i :: 0 <= i < |parts| && parse(parts[i]).Ok? && parse(parts[i]).value.0 == name {
        var i :| 0 <= i < |parts| && parse(parts[i]).Ok? && parse(parts[i]).value.0 == name;
        if i < |init| {
          assert init[i] == parts[i];
        }
      }
    }
  }

  lemma {:induction false} GatherLastWins(parts: seq<string>, parse: string -> Result<(string, string)>, name: string)
    requires Gather(parts, parse).Ok? && name in Gather(parts, parse).value
    ensures exists i ::
      && 0 <= i < |parts| && parse(parts[i]) == Ok((name, Gather(parts, parse).value[name]))
      && forall j :: i < j < |parts| ==> parse(parts[j]).Ok? && parse(parts[j]).value.0 != name
    decreases |parts|
  {
    var init := parts[..|parts| - 1];
    assert Gather(init, parse).Ok?;
    var m := Gather(init, parse).value;
    var p := parse(parts[|parts| - 1]).value;
    var r := Gather(parts, parse).value;
    assert r == m[p.0 := p.1];
    if p.0 == name {
      assert parse(parts[|parts| - 1]) == Ok((name, r[name]));
    } else {
      GatherLastWins(init, parse, name);
      var i :| 0 <= i < |init| && parse(init[i]) == Ok((name, m[name]))
        && forall j :: i < j < |init| ==> parse(init[j]).Ok? && parse(init[j]).value.0 != name;
      assert parts[i] == init[i];
      forall j | i < j < |parts| ensures parse(parts[j]).Ok? && parse(parts[j]).value.0 != name {
        if j < |init| { assert parts[j] == init[j]; }
      }
    }
  }

  /** The pieces read as a description and a parameter map. */
  function Parsed(parts: seq<string>): Result<(string, map<string, string>)>
    requires parts != []
  {
    match Params(parts[1..])
    case Err(e) => Err(e)
    case Ok(m) => Ok((RStrip(parts[0], Whitespace), m))
  }

  lemma ParsedIs(parts: seq<string>, m: map<string, string>)
    requires parts != [] && Params(parts[1..]) == Ok(m)
    ensures Parsed(parts) == Ok((RStrip(parts[0], Whitespace), m))
  {
  }

  /** The description of a docstring is the text before its first `:param `, with
      trailing whitespace removed; it fails exactly when some later piece fails. */
  lemma DocMeaning(docstring: string)
    ensures var parts := Split(docstring, ParamTag);
      var first := parts[0];
      && StartsWith(docstring, first) && !Contains(first, ParamTag)
      && (Contains(docstring, ParamTag) ==> |first| == FindFrom(docstring, ParamTag, 0).value)
      && (!Contains(docstring, ParamTag) ==> first == docstring)
      && (Parsed(parts).Ok? ==> Parsed(parts).value.0 == RStrip(first, Whitespace))
      && (Parsed(parts).Err? <==> exists i :: 1 <= i < |parts| && ParamOf(parts[i]).Err?)
  {
    var parts := Split(docstring, ParamTag);
    SplitPiecesFree(docstring, ParamTag);
    ParamsFail(parts[1..]);
    if exists i :: 1 <= i < |parts| && ParamOf(parts[i]).Err? {
      var i :| 1 <= i < |parts| && ParamOf(parts[i]).Err?;
      assert parts[1..][i - 1] == parts[i];
    }
    if exists i :: 0 <= i < |parts[1..]| && ParamOf(parts[1..][i]).Err? {
      var i :| 0 <= i < |parts[1..]| && ParamOf(parts[1..][i]).Err?;
      assert parts[1..][i] == parts[i + 1];
    }
  }

  /** A piece `name: text` with a plain word as the name reads back as that name and
      the stripped text. */
  lemma ParamOfRoundTrip(name: string, text: string)
    requires name != [] && NoWhitespace(name) && ':' !in name
    ensures ParamOf(name + ":" + text) == Ok((name, Strip(text)))
  {
    var part := name + ":" + text;
    forall j | 0 <= j < |name| ensures !OccursAt(part, ":", j) {
      assert part[j..j + 1] == [name[j]];
    }
    assert OccursAt(part, ":", |name|) by { assert part[|name|..|name| + 1] == ":"; }
    FindFromFirst(part, ":", 0, |name|);
    assert part[..|name|] == name;
    assert part[|name| + 1..] == text;
    WordOnly(name);
  }

  /** A word is its own only word. */
  lemma WordOnly(w: string)
    requires w != [] && NoWhitespace(w)
    ensures Words(w) == [w]
  {
    assert w[0] !in Whitespace;
    assert LStrip(w, Whitespace) == w;
    var n := WordLength(w);
    assert w[n..] == [];
    assert w[..n] == w;
  }

  /** Reading pieces in two runs: the map of the second run overrides the first. */
  lemma {:induction false} GatherAppend(a: seq<string>, b: seq<string>, parse: string -> Result<(string, string)>)
    requires Gather(a, parse).Ok? && Gather(b, parse).Ok?
    ensures Gather(a + b, parse) == Ok(Gather(a, parse).value + Gather(b, parse).value)
    decreases |b|
  {
    if b == [] {
      assert a + b == a;
      assert Gather(a, parse).value + map[] == Gather(a, parse).value;
    } else {
      var init := b[..|b| - 1];
      assert (a + b)[..|a + b| - 1] == a + init;
      assert (a + b)[|a + b| - 1] == b[|b| - 1];
      assert Gather(init, parse).Ok?;
      GatherAppend(a, init, parse);
      var p := parse(b[|b| - 1]).value;
      var ma := Gather(a, parse).value;
      var mi := Gather(init, parse).value;
      assert Gather(b, parse) == Ok(mi[p.0 := p.1]);
      assert Gather(a + b, parse) == Ok((ma + mi)[p.0 := p.1]);
      assert (ma + mi)[p.0 := p.1] == ma + mi[p.0 := p.1];
    }
  }

  /** The parameters of two runs of pieces: the second run wins for a repeated name. */
  lemma ParamsAppend(a: seq<string>, b: seq<string>)
    requires Params(a).Ok? && Params(b).Ok?
    ensures Params(a + b) == Ok(Params(a).value + Params(b).value)
  {
    GatherAppend(a, b, ParamOf);
  }
}
