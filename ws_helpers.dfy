// `ToxIni` of the current generation (workspace/commands/helpers.py): section names,
// the environment's directories and its commands.
module WsHelpers {
  import opened Wrappers
  import opened Text
  import opened ToxConfig

  /** `envsection(env)`: the environment's own section, or the shared `testenv`
      section for no (or an empty) environment name. */
  function Envsection(env: Option<string>): (r: string)
    ensures StartsWith(r, "testenv")
    ensures r == "testenv" <==> env.None? || env.value == ""
    ensures r != "testenv" ==> r[..8] == "testenv:" && r[8..] == env.value
  {
    if env.Some? && env.value != "" then "testenv:" + env.value else "testenv"
  }

  /** `workdir`: `toxworkdir` from the `tox` section, `.tox` by default, under the path. */
  function Workdir(cfg: Config, path: string): string
  {
    PathJoin(path, Get(cfg, "tox", "toxworkdir", ".tox"))
  }

  /** The configured `envdir`: the environment's own wins over the shared `testenv`
      one, and `<path>/.tox/<env>` is used when neither is set. */
  function EnvdirSetting(cfg: Config, path: string, env: string): (v: string)
    ensures (Envsection(Some(env)), "envdir") in cfg ==> v == cfg[(Envsection(Some(env)), "envdir")]
    ensures (Envsection(Some(env)), "envdir") !in cfg && ("testenv", "envdir") in cfg ==> v == cfg[("testenv", "envdir")]
    ensures (Envsection(Some(env)), "envdir") !in cfg && ("testenv", "envdir") !in cfg ==> v == PathJoin(PathJoin(path, ".tox"), env)
  {
    Get(cfg, Envsection(Some(env)), "envdir", Get(cfg, Envsection(None), "envdir", PathJoin(PathJoin(path, ".tox"), env)))
  }

  /** `envdir(env)`: the configured `envdir` with `{toxworkdir}` replaced by the work
      directory and variables expanded. */
  function Envdir(cfg: Config, path: string, env: string, subst: string -> string): (r: string)
    ensures (Envsection(Some(env)), "envdir") !in cfg && ("testenv", "envdir") !in cfg
            && !Contains(PathJoin(PathJoin(path, ".tox"), env), "{")
            ==> r == PathJoin(PathJoin(path, ".tox"), env)
    ensures !Contains(EnvdirSetting(cfg, path, env), "{") ==> r == EnvdirSetting(cfg, path, env)
    ensures var v := EnvdirSetting(cfg, path, env);
      StartsWith(v, Toxworkdir) && !Contains(v[|Toxworkdir|..], "{") && !Contains(Workdir(cfg, path), "{")
      ==> r == Workdir(cfg, path) + v[|Toxworkdir|..]
  {
    var value := EnvdirSetting(cfg, path, env);
    var w := Workdir(cfg, path);
    assert !Contains(value, "{") ==> ReplaceAll(value, Toxworkdir, w) == value by {
      if !Contains(value, "{") { NoPatternNoChange(value, Toxworkdir, w); }
    }
    assert StartsWith(value, Toxworkdir) && !Contains(value[|Toxworkdir|..], "{") && !Contains(w, "{")
           ==> ExpandVars(ReplaceAll(value, Toxworkdir, w), subst) == w + value[|Toxworkdir|..] by {
      if StartsWith(value, Toxworkdir) && !Contains(value[|Toxworkdir|..], "{") && !Contains(w, "{") {
        LeadingToxworkdir(value[|Toxworkdir|..], w);
        assert value == Toxworkdir + value[|Toxworkdir|..];
        NoBraceAppend(w, value[|Toxworkdir|..]);
      }
    }
    ExpandVars(ReplaceAll(value, Toxworkdir, w), subst)
  }

  const Toxworkdir := "{toxworkdir}"

  /** A leading `{toxworkdir}` becomes the work directory; the rest, holding no `{`,
      is kept. */
  lemma LeadingToxworkdir(rest: string, w: string)
    requires !Contains(rest, "{")
    ensures ReplaceAll(Toxworkdir + rest, Toxworkdir, w) == w + rest
  {
    assert |Toxworkdir| > 0 && Toxworkdir[0] == '{';
    LeadingPattern(Toxworkdir, rest, w);
  }

  /** A pattern opening with `{` at the start is replaced, and the rest, holding no `{`,
      is kept. */
  lemma LeadingPattern(pat: string, rest: string, w: string)
    requires |pat| > 0 && pat[0] == '{' && !Contains(rest, "{")
    ensures ReplaceAll(pat + rest, pat, w) == w + rest
  {
    var value := pat + rest;
    assert value[..|pat|] == pat;
    assert FindFrom(value, pat, 0) == Some(0);
    assert value[|pat|..] == rest;
    NoPatternNoChange(rest, pat, w);
  }

  /** Two strings without `{` joined hold none. */
  lemma NoBraceAppend(a: string, b: string)
    requires !Contains(a, "{") && !Contains(b, "{")
    ensures !Contains(a + b, "{")
  {
    ContainsIff(a, "{");
    ContainsIff(b, "{");
    ContainsIff(a + b, "{");
    forall j | 0 <= j && j + 1 <= |a + b| ensures !OccursAt(a + b, "{", j) {
      if j < |a| {
        assert !OccursAt(a, "{", j);
        assert (a + b)[j..j + 1] == a[j..j + 1];
      } else {
        assert !OccursAt(b, "{", j - |a|);
        assert (a + b)[j..j + 1] == b[j - |a|..j - |a| + 1];
      }
    }
  }

  /** A value without `{` holds no `{toxworkdir}` to replace. */
  lemma NoPatternNoChange(value: string, pat: string, rep: string)
    requires |pat| > 0 && pat[0] == '{' && !Contains(value, "{")
    ensures ReplaceAll(value, pat, rep) == value
  {
    ContainsIff(value, "{");
    ContainsIff(value, pat);
    forall j | 0 <= j && j + |pat| <= |value| ensures !OccursAt(value, pat, j) {
      assert !OccursAt(value, "{", j);
      assert value[j..j + 1] == [value[j]];
      assert value[j..j + |pat|][0] == value[j];
    }
    ReplaceAllIsSplitJoin(value, pat, rep);
    assert FindFrom(value, pat, 0).None?;
    assert Split(value, pat) == [value];
  }

  /** `bindir(env, script)`: `<envdir>/bin`, or the script inside it. */
  function Bindir(envdir: string, script: Option<string>): (r: string)
    ensures script.Some? && script.value != "" && '/' !in script.value ==> Basename(r) == script.value
    ensures (script.None? || script.value == "") && envdir != "" ==> EndsWith(r, "/bin")
    ensures envdir != "" && !EndsWith(envdir, "/") && (script.None? || script.value == "") ==> r == envdir + "/bin"
    ensures envdir != "" && !EndsWith(envdir, "/") && script.Some? && script.value != "" && !StartsWith(script.value, "/")
            ==> r == envdir + "/bin/" + script.value
    ensures script.Some? && StartsWith(script.value, "/") ==> r == script.value
    ensures !(script.Some? && StartsWith(script.value, "/")) ==> StartsWith(r, envdir)
  {
    var dir := PathJoin(envdir, "bin");
    BinUnder(envdir);
    if script.Some? && script.value != "" then
      var r := PathJoin(dir, script.value);
      JoinUnder(dir, script.value);
      assert envdir != "" && !EndsWith(envdir, "/") && !StartsWith(script.value, "/")
             ==> r == envdir + "/bin/" + script.value by {
        if envdir != "" && !EndsWith(envdir, "/") && !StartsWith(script.value, "/") {
          BinScript(envdir, script.value);
        }
      }
      assert !StartsWith(script.value, "/") ==> StartsWith(r, envdir) by {
        if !StartsWith(script.value, "/") { PrefixTrans(r, dir, envdir); }
      }
      assert '/' !in script.value ==> Basename(r) == script.value by {
        if '/' !in script.value { PathJoinBasename(dir, script.value); }
      }
      r
    else
      dir
  }

  /** `<envdir>/bin` lies under the envdir, and ends in `/bin` when the envdir is set. */
  lemma BinUnder(envdir: string)
    ensures StartsWith(PathJoin(envdir, "bin"), envdir)
    ensures envdir != "" ==> EndsWith(PathJoin(envdir, "bin"), "/bin")
    ensures envdir != "" && !EndsWith(envdir, "/") ==> PathJoin(envdir, "bin") == envdir + "/bin"
  {
    var dir := PathJoin(envdir, "bin");
    assert "bin"[..1] == "b";
    assert dir[..|envdir|] == envdir;
    if envdir != "" && EndsWith(envdir, "/") {
      assert dir[|dir| - 4..] == envdir[|envdir| - 1..] + "bin";
    }
  }

  lemma BinScript(envdir: string, name: string)
    requires envdir != "" && !EndsWith(envdir, "/") && name != "" && !StartsWith(name, "/")
    ensures PathJoin(PathJoin(envdir, "bin"), name) == envdir + "/bin/" + name
  {
    BinUnder(envdir);
    var dir := envdir + "/bin";
    assert dir[|dir| - 1..] == "n";
    JoinUnder(dir, name);
    assert dir + "/" + name == envdir + "/bin/" + name;
  }

  /** Joining a relative name stays under the directory; an absolute one replaces it. */
  lemma JoinUnder(dir: string, name: string)
    requires name != ""
    ensures StartsWith(name, "/") ==> PathJoin(dir, name) == name
    ensures !StartsWith(name, "/") ==> StartsWith(PathJoin(dir, name), dir)
    ensures !StartsWith(name, "/") && dir != "" && !EndsWith(dir, "/") ==> PathJoin(dir, name) == dir + "/" + name
  {
    var p := PathJoin(dir, name);
    if !StartsWith(name, "/") {
      assert p[..|dir|] == dir;
    }
  }

  lemma PrefixTrans(s: string, t: string, u: string)
    requires StartsWith(s, t) && StartsWith(t, u)
    ensures StartsWith(s, u)
  {
    assert s[..|u|] == t[..|t|][..|u|];
  }

  /** The last component of a join is the joined name. */
  lemma PathJoinBasename(dir: string, name: string)
    requires name != "" && '/' !in name
    ensures Basename(PathJoin(dir, name)) == name
  {
    var p := PathJoin(dir, name);
    assert name[0] in name;
    assert !StartsWith(name, "/");
    assert p == (if dir == [] || EndsWith(dir, "/") then dir + name else dir + "/" + name);
    var pre := |p| - |name|;
    assert p[pre..] == name;
    assert pre > 0 ==> p[pre - 1] == '/';
    assert forall j :: pre <= j < |p| ==> p[j] == name[j - pre];
    assert RFind(p, '/') == pre - 1;
  }

  /** The commands configured for `section`: the non-empty lines of its own `commands`,
      else of the shared `testenv` ones, else of `py.test {env:PYTESTARGS:}`, after
      variable expansion. Both generations read them this way. */
  function CommandsIn(cfg: Config, section: string, subst: string -> string): (r: seq<string>)
    ensures forall i :: 0 <= i < |r| ==> r[i] != "" && !Contains(r[i], "\n")
    ensures (section, "commands") in cfg ==> r == CommandLines(ExpandVars(cfg[(section, "commands")], subst))
    ensures (section, "commands") !in cfg && ("testenv", "commands") in cfg
            ==> r == CommandLines(ExpandVars(cfg[("testenv", "commands")], subst))
    ensures (section, "commands") !in cfg && ("testenv", "commands") !in cfg
            ==> r == CommandLines(subst(DefaultCommands))
  {
    var text := Get(cfg, section, "commands", Get(cfg, "testenv", "commands", DefaultCommands));
    assert OccursAt(DefaultCommands, "{", 8);
    ContainsIff(DefaultCommands, "{");
    CommandLines(ExpandVars(text, subst))
  }

  /** `commands(env)`: the commands configured for the environment's section. */
  function Commands(cfg: Config, env: Option<string>, subst: string -> string): (r: seq<string>)
    ensures forall i :: 0 <= i < |r| ==> r[i] != "" && !Contains(r[i], "\n")
    ensures (Envsection(env), "commands") in cfg ==> r == CommandLines(ExpandVars(cfg[(Envsection(env), "commands")], subst))
    ensures (Envsection(env), "commands") !in cfg && ("testenv", "commands") in cfg
            ==> r == CommandLines(ExpandVars(cfg[("testenv", "commands")], subst))
    ensures (Envsection(env), "commands") !in cfg && ("testenv", "commands") !in cfg
            ==> r == CommandLines(subst(DefaultCommands))
  {
    CommandsIn(cfg, Envsection(env), subst)
  }
}
