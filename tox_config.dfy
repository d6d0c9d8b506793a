// The parts of `ToxIni` that both generations share: configuration lookups with a
// default, the `envlist` split and the `commands` split.
module ToxConfig {
  import opened Wrappers
  import opened Text

  /** A loaded tox.ini: (section, key) to value. */
  type Config = map<(string, string), string>

  /** `self.get(section, key, default)`. */
  function Get(cfg: Config, section: string, key: string, default: string): (r: string)
    ensures (section, key) in cfg ==> r == cfg[(section, key)]
    ensures (section, key) !in cfg ==> r == default
  {
    if (section, key) in cfg then cfg[(section, key)] else default
  }

  /** `expand_vars(value)`: the `{[section]key}` substitution, which is abstracted as
      `subst`, runs only on a value that contains `{`. */
  function ExpandVars(value: string, subst: string -> string): (r: string)
    ensures !Contains(value, "{") ==> r == value
  {
    if Contains(value, "{") then subst(value) else value
  }

  const DefaultCommands := "py.test {env:PYTESTARGS:}"

  /** The pieces that are not empty, in order (`filter(None, ...)`). */
  function DropEmpty(ps: seq<string>): (r: seq<string>)
    ensures forall x :: x in r <==> x in ps && x != ""
    ensures |r| <= |ps|
  {
    if ps == [] then []
    else (if ps[0] == "" then [] else [ps[0]]) + DropEmpty(ps[1..])
  }

  lemma {:induction false} DropEmptyKeeps(ps: seq<string>)
    requires forall i :: 0 <= i < |ps| ==> ps[i] != ""
    ensures DropEmpty(ps) == ps
  {
    if ps != [] {
      DropEmptyKeeps(ps[1..]);
      assert ps == [ps[0]] + ps[1..];
    }
  }

  function StripAll(ps: seq<string>): (r: seq<string>)
    ensures |r| == |ps| && forall i :: 0 <= i < |ps| ==> r[i] == Strip(ps[i])
  {
    if ps == [] then [] else [Strip(ps[0])] + StripAll(ps[1..])
  }

  /** `[e.strip() for e in envlist.split(',') if e]`: a piece is dropped only when it
      is empty BEFORE stripping, so `"a, ,b"` keeps an empty middle entry. */
  function Envlist(envlist: string): (r: seq<string>)
    ensures forall i :: 0 <= i < |r| ==> !Contains(r[i], ",")
  {
    var ps := DropEmpty(Split(envlist, ","));
    SplitPiecesFree(envlist, ",");
    var r := StripAll(ps);
    assert forall i :: 0 <= i < |r| ==> !Contains(r[i], ",") by {
      forall i | 0 <= i < |r| ensures !Contains(r[i], ",") {
        assert ps[i] in Split(envlist, ",");
        StripFree(ps[i], ",");
      }
    }
    r
  }

  /** Stripping keeps a string free of a separator. */
  lemma StripFree(s: string, sep: string)
    requires |sep| > 0 && !Contains(s, sep)
    ensures !Contains(Strip(s), sep)
  {
    StripCharsFree(s, Whitespace, sep);
  }

  lemma StripCharsFree(s: string, chars: set<char>, sep: string)
    requires |sep| > 0 && !Contains(s, sep)
    ensures !Contains(StripChars(s, chars), sep)
  {
    var l := LStrip(s, chars);
    InsideFree(s, l, |s| - |l|, sep);
    InsideFree(l, StripChars(s, chars), 0, sep);
  }

  /** A piece of a string free of `sep` is free of it too. */
  lemma InsideFree(s: string, t: string, d: nat, sep: string)
    requires |sep| > 0 && !Contains(s, sep) && d + |t| <= |s| && t == s[d..d + |t|]
    ensures !Contains(t, sep)
  {
    ContainsIff(s, sep);
    ContainsIff(t, sep);
    forall k | OccursAt(t, sep, k) ensures OccursAt(s, sep, d + k) {
      forall j | 0 <= j < |sep| ensures s[d + k + j] == sep[j] {
        assert t[k + j] == s[d + k + j];
        assert t[k..k + |sep|][j] == sep[j];
      }
      assert s[d + k..d + k + |sep|] == sep;
    }
  }

  /** A list without empty or padded entries survives the round trip through its
      comma-joined text. */
  lemma EnvlistOfJoin(envs: seq<string>)
    requires forall i :: 0 <= i < |envs| ==> envs[i] != "" && Strip(envs[i]) == envs[i] && !Contains(envs[i], ",")
    ensures Envlist(Join(",", envs)) == envs
  {
    if envs == [] {
      assert Split("", ",") == [""];
    } else {
      var text := Join(",", envs);
      forall i | 0 <= i < |envs| ensures ',' !in envs[i] {
        CharFree(envs[i], ',');
      }
      JoinSplitLead(envs, ",");
      DropEmptyKeeps(envs);
      assert DropEmpty(Split(text, ",")) == envs;
      StripAllKeeps(envs);
      assert Envlist(text) == StripAll(envs);
    }
  }

  lemma StripAllKeeps(ps: seq<string>)
    requires forall i :: 0 <= i < |ps| ==> Strip(ps[i]) == ps[i]
    ensures StripAll(ps) == ps
  {
    assert forall i :: 0 <= i < |ps| ==> StripAll(ps)[i] == ps[i];
  }

  /** `[c for c in commands.split('\n') if c]`: the non-empty lines. */
  function CommandLines(commands: string): (r: seq<string>)
    ensures forall i :: 0 <= i < |r| ==> r[i] != "" && !Contains(r[i], "\n")
  {
    var ps := Split(commands, "\n");
    SplitPiecesFree(commands, "\n");
    var r := DropEmpty(ps);
    assert forall i :: 0 <= i < |r| ==> r[i] != "" && !Contains(r[i], "\n") by {
      forall i | 0 <= i < |r| ensures r[i] != "" && !Contains(r[i], "\n") {
        assert r[i] in ps;
      }
    }
    r
  }

  /** Text with no empty line is exactly its command lines joined back. */
  lemma CommandLinesJoin(commands: string)
    requires forall i :: 0 <= i < |Split(commands, "\n")| ==> Split(commands, "\n")[i] != ""
    ensures Join("\n", CommandLines(commands)) == commands
  {
    DropEmptyKeeps(Split(commands, "\n"));
    SplitJoin(commands, "\n");
  }
}
