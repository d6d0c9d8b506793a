// `ToxIni` of the older generation (src/workspace/commands/helpers.py): finding the
// tox*.ini file, section names and commands.
module LegacyHelpers {
  import opened Wrappers
  import opened Text
  import opened ToxConfig
  import WsHelpers

  /** `path_for(repo)`: the first `tox*.ini` the glob found; IOError when none. */
  function PathFor(matches: seq<string>): (r: Result<string>)
    ensures r.Err? <==> matches == []
    ensures r.Ok? ==> r.value == matches[0] && r.value in matches
  {
    if matches == [] then Err("IOError") else Ok(matches[0])
  }

  /** `envsection(env)`: always the environment's own section. */
  function Envsection(env: string): (r: string)
    ensures |r| == 8 + |env| && r[..8] == "testenv:" && r[8..] == env
  {
    "testenv:" + env
  }

  /** `commands(env)`: the commands configured for the environment's own section, read
      as the current generation reads them. */
  function Commands(cfg: Config, env: string, subst: string -> string): (r: seq<string>)
    ensures forall i :: 0 <= i < |r| ==> r[i] != "" && !Contains(r[i], "\n")
    ensures (Envsection(env), "commands") in cfg ==> r == CommandLines(ExpandVars(cfg[(Envsection(env), "commands")], subst))
    ensures (Envsection(env), "commands") !in cfg && ("testenv", "commands") in cfg
            ==> r == CommandLines(ExpandVars(cfg[("testenv", "commands")], subst))
    ensures (Envsection(env), "commands") !in cfg && ("testenv", "commands") !in cfg
            ==> r == CommandLines(subst(DefaultCommands))
  {
    WsHelpers.CommandsIn(cfg, Envsection(env), subst)
  }

  /** For a named environment both generations read the same section, and so the
      same commands; only the current one has a shared section for no name. */
  lemma EnvsectionAgrees(cfg: Config, env: string, subst: string -> string)
    requires env != ""
    ensures Envsection(env) == WsHelpers.Envsection(Some(env))
    ensures Commands(cfg, env, subst) == WsHelpers.Commands(cfg, Some(env), subst)
  {
  }
}
