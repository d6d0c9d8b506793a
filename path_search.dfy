// The walk up a directory tree behind `parent_path_with` (workspace/utils.py:55-73)
// and the older `parent_path_with_dir` (src/workspace/utils.py:14-32): start from the
// given path, or the working directory when none is given, and go to `dirname` until
// `/` is reached. The working directory is an input.
module PathSearch {
  import opened Text

  /** The outcome of a search: the path found, `False` once `/` is reached, or no end at
      all, when `dirname` keeps returning a path of slashes only (`//` and longer), which
      Python ends with a RecursionError. */
  datatype Search = Found(path: string) | NotFound | Unending

  predicate Absolute(p: string) { StartsWith(p, "/") }

  /** An absolute path with a single leading slash, as `os.getcwd()` returns. */
  predicate Rooted(p: string) { Absolute(p) && !StartsWith(p, "//") }

  /** Where a step of the walk looks: the path itself, or the working directory for an
      empty one (Python's `not path`). */
  function Start(path: string, cwd: string): string
  {
    if path == "" then cwd else path
  }

  /** The order of the walk: absolute paths before relative ones, shorter before longer. */
  function Rank(path: string): (nat, nat)
  {
    (if Absolute(path) then 0 else 1, |path|)
  }

  /** The paths the walk tries, in order, up to the one that would repeat forever. */
  function Trail(path: string, cwd: string): seq<string>
    requires Absolute(cwd)
    decreases Rank(path).0, Rank(path).1
  {
    if path == "/" then []
    else
      var p := Start(path, cwd);
      var next := Dirname(p);
      DirnameStep(p);
      if next == p && p != "/" then [p] else [p] + Trail(next, cwd)
  }

  /** Whether the walk never reaches `/`. */
  predicate Loops(path: string, cwd: string)
    requires Absolute(cwd)
    decreases Rank(path).0, Rank(path).1
  {
    if path == "/" then false
    else
      var p := Start(path, cwd);
      var next := Dirname(p);
      DirnameStep(p);
      if next == p && p != "/" then true else Loops(next, cwd)
  }

  /** `dirname` gives a prefix, keeps an absolute path absolute and a relative one
      relative or empty, and changes everything but a path of slashes only. */
  lemma DirnameStep(p: string)
    ensures |Dirname(p)| <= |p| && Dirname(p) == p[..|Dirname(p)|]
    ensures Absolute(p) ==> Absolute(Dirname(p))
    ensures Rooted(p) ==> Rooted(Dirname(p))
    ensures !Absolute(p) ==> !Absolute(Dirname(p))
    ensures Dirname(p) == p ==> p == Repeat('/', |p|)
  {
    var r := RFind(p, '/');
    var head := p[..r + 1];
    var rs := RStrip(head, {'/'});
    AllSlashes(head);
    if Absolute(p) {
      assert p[0] == '/';
      assert head[0] == '/';
    }
    if StartsWith(p, "//") {
      assert p[1] == '/';
    }
    if Dirname(p) == p && p != [] {
      assert head == p;
      assert p[|p| - 1] == '/';
    }
  }

  /** A text that right-strips to nothing is all slashes. */
  lemma AllSlashes(head: string)
    ensures RStrip(head, {'/'}) == [] ==> head == Repeat('/', |head|)
  {
    if RStrip(head, {'/'}) == [] {
      assert forall i :: 0 <= i < |head| ==> head[i] == '/';
    }
  }

  /** Every path tried is `dirname` of the one before (or the working directory, where
      that is empty), the first being where the walk starts; `/` is tried only when it is the working directory and the walk did not
      start from an absolute path. */
  lemma {:induction false} TrailSteps(path: string, cwd: string)
    requires Absolute(cwd)
    ensures var t := Trail(path, cwd);
      && (t == [] <==> path == "/")
      && (t != [] ==> t[0] == Start(path, cwd))
      && (forall i :: 0 <= i < |t| - 1 ==> t[i + 1] == Start(Dirname(t[i]), cwd))
      && (forall i :: 0 <= i < |t| && t[i] == "/" ==> cwd == "/" && !Absolute(path))
    decreases Rank(path).0, Rank(path).1
  {
    if path != "/" {
      var p := Start(path, cwd);
      var next := Dirname(p);
      DirnameStep(p);
      if !(next == p && p != "/") {
        TrailSteps(next, cwd);
        var t := Trail(path, cwd);
        var rest := Trail(next, cwd);
        assert t == [p] + rest;
        forall i | 0 <= i < |t| - 1 ensures t[i + 1] == Start(Dirname(t[i]), cwd) {
          if i > 0 {
            assert t[i] == rest[i - 1];
          }
        }
        forall i | 0 <= i < |t| && t[i] == "/" ensures cwd == "/" && !Absolute(path) {
          if i > 0 {
            assert rest[i - 1] == "/";
          }
        }
      }
    }
  }

  /** Every path tried is a prefix of where the walk starts, or, once a relative path is
      used up, of the working directory. */
  lemma {:induction false} TrailAncestors(path: string, cwd: string)
    requires Absolute(cwd)
    ensures forall i :: 0 <= i < |Trail(path, cwd)| ==>
      StartsWith(Start(path, cwd), Trail(path, cwd)[i])
      || (!Absolute(path) && StartsWith(cwd, Trail(path, cwd)[i]))
    decreases Rank(path).0, Rank(path).1
  {
    if path != "/" {
      var p := Start(path, cwd);
      var next := Dirname(p);
      DirnameStep(p);
      if !(next == p && p != "/") {
        TrailAncestors(next, cwd);
        var rest := Trail(next, cwd);
        assert Trail(path, cwd) == [p] + rest;
        forall i | 0 <= i < |rest|
          ensures StartsWith(p, rest[i]) || (!Absolute(path) && StartsWith(cwd, rest[i]))
        {
          StepAncestor(path, cwd, rest[i]);
        }
        ConsAncestors(p, rest, cwd, !Absolute(path));
      }
    }
  }

  /** A prefix of where the next step starts is a prefix of where this step starts,
      or, once a relative path is used up, of the working directory. */
  lemma StepAncestor(path: string, cwd: string, q: string)
    requires Absolute(cwd) && path != "/"
    requires var next := Dirname(Start(path, cwd));
      StartsWith(Start(next, cwd), q) || (!Absolute(next) && StartsWith(cwd, q))
    ensures StartsWith(Start(path, cwd), q) || (!Absolute(path) && StartsWith(cwd, q))
  {
    var p := Start(path, cwd);
    var next := Dirname(p);
    DirnameStep(p);
    if next != "" && StartsWith(next, q) {
      assert p[..|q|] == next[..|q|];
    }
  }

  lemma ConsAncestors(p: string, rest: seq<string>, cwd: string, relative: bool)
    requires forall i :: 0 <= i < |rest| ==> StartsWith(p, rest[i]) || (relative && StartsWith(cwd, rest[i]))
    ensures forall i :: 0 <= i < |[p] + rest| ==> StartsWith(p, ([p] + rest)[i]) || (relative && StartsWith(cwd, ([p] + rest)[i]))
  {
    forall i | 0 <= i < |[p] + rest|
      ensures StartsWith(p, ([p] + rest)[i]) || (relative && StartsWith(cwd, ([p] + rest)[i]))
    {
      if i > 0 {
        assert ([p] + rest)[i] == rest[i - 1];
      }
    }
  }

  /** From a path not starting with `//` and a working directory with one leading slash,
      the walk always reaches `/`. */
  lemma {:induction false} RootedEnds(path: string, cwd: string)
    requires Rooted(cwd) && !StartsWith(path, "//")
    ensures !Loops(path, cwd)
    decreases Rank(path).0, Rank(path).1
  {
    if path != "/" {
      var p := Start(path, cwd);
      var next := Dirname(p);
      DirnameStep(p);
      assert p != [] && p[0] == '/' ==> |p| == 1 || p[1] != '/';
      assert next == p ==> p == Repeat('/', |p|);
      if next != p || p == "/" {
        RootedEnds(next, cwd);
      }
    }
  }
}
