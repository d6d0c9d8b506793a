// src/workspace/utils.py: the search for the nearest directory holding a given
// directory, and `split_doc`. The file system is the `isDir` input.
module LegacyUtils {
  import opened Wrappers
  import opened Text
  import opened PathSearch
  import opened DocParams
  import WsUtils

  /** `parent_path_with_dir`: `/` gives up, an empty path means the working directory, a
      path holding `directory` is the answer, and otherwise its `dirname` is tried. */
  function ParentPathWithDir(isDir: string -> bool, directory: string, path: string, cwd: string): Search
    requires Absolute(cwd)
    decreases Rank(path).0, Rank(path).1
  {
    if path == "/" then NotFound
    else
      var p := Start(path, cwd);
      if isDir(PathJoin(p, directory)) then Found(p)
      else
        var next := Dirname(p);
        DirnameStep(p);
        if next == p && p != "/" then Unending else ParentPathWithDir(isDir, directory, next, cwd)
  }

  /** The older search finds what the newer one finds when its check is "holds the
      directory". */
  lemma {:induction false} SameAsCurrent(isDir: string -> bool, directory: string, path: string, cwd: string)
    requires Absolute(cwd)
    ensures ParentPathWithDir(isDir, directory, path, cwd) == WsUtils.ParentPathWithDir(isDir, directory, path, cwd)
    decreases Rank(path).0, Rank(path).1
  {
    if path != "/" {
      var p := Start(path, cwd);
      var next := Dirname(p);
      DirnameStep(p);
      if !isDir(PathJoin(p, directory)) && !(next == p && p != "/") {
        SameAsCurrent(isDir, directory, next, cwd);
      }
    }
  }

  /** The answer is the first path of the walk holding the directory. */
  lemma FirstHolding(isDir: string -> bool, directory: string, path: string, cwd: string)
    requires Absolute(cwd)
    ensures var t := Trail(path, cwd);
      var r := ParentPathWithDir(isDir, directory, path, cwd);
      && (r.Found? ==> exists i :: 0 <= i < |t| && t[i] == r.path && isDir(PathJoin(t[i], directory))
                                  && forall j :: 0 <= j < i ==> !isDir(PathJoin(t[j], directory)))
      && (r.NotFound? <==> (forall i :: 0 <= i < |t| ==> !isDir(PathJoin(t[i], directory))) && !Loops(path, cwd))
  {
    SameAsCurrent(isDir, directory, path, cwd);
    WsUtils.FirstPassing(p => isDir(PathJoin(p, directory)), path, cwd);
  }

  /** `split_doc`: the description and the parameter map of a docstring. */
  method SplitDoc(docstring: string) returns (r: Result<(string, map<string, string>)>)
    ensures r == Parsed(Split(docstring, ParamTag))
  {
    var parts := Split(docstring, ParamTag);
    var doc := RStrip(parts[0], Whitespace);
    var params := ParseParams(parts[1..]);
    if params.Err? {
      return Err(params.error);
    }
    r := Ok((doc, params.value));
  }
}
