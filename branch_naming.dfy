// Deriving a branch name from a commit message. The algorithm is the same in
// both generations of the tool (`Commit._branch_for_msg` and the older
// module-level `branch_for_msg`).
module BranchNaming {
  import opened Wrappers
  import opened Text

  const IgnoredWords: seq<string> := ["and", "but", "for", "from"]
  const IgnoredWordLength := 2
  const DraftPrefix := "DRAFT: "

  /** A character that the separator pattern `[\W\_]+` does not match. */
  predicate IsWordChar(c: char) { IsAlnum(c) }

  /** `re.split('[\W\_]+', s)`: the runs of word characters, with an empty piece
      before a leading separator run and after a trailing one. */
  function RegexSplit(s: string): (r: seq<string>)
    ensures |r| >= 1
    decreases |s|
  {
    if s == [] then [""]
    else if IsWordChar(s[0]) then
      var rest := RegexSplit(s[1..]);
      [[s[0]] + rest[0]] + rest[1..]
    else if |s| > 1 && !IsWordChar(s[1]) then RegexSplit(s[1..])
    else [""] + RegexSplit(s[1..])
  }

  function Concat(ps: seq<string>): string
  {
    if ps == [] then "" else ps[0] + Concat(ps[1..])
  }

  /** The characters of `s` that are word characters, in order. */
  function WordChars(s: string): string
  {
    if s == [] then "" else (if IsWordChar(s[0]) then [s[0]] else "") + WordChars(s[1..])
  }

  /** Splitting keeps every word character, in order, and drops every separator. */
  lemma {:induction false} RegexSplitKeepsWordChars(s: string)
    ensures Concat(RegexSplit(s)) == WordChars(s)
    ensures forall k, i :: 0 <= k < |RegexSplit(s)| && 0 <= i < |RegexSplit(s)[k]| ==> IsWordChar(RegexSplit(s)[k][i])
    decreases |s|
  {
    if s != [] {
      RegexSplitKeepsWordChars(s[1..]);
      var rest := RegexSplit(s[1..]);
      if IsWordChar(s[0]) {
        var r := RegexSplit(s);
        assert r[1..] == rest[1..];
        assert rest == [rest[0]] + rest[1..];
        ConcatCons(rest[0], rest[1..]);
        ConcatCons([s[0]] + rest[0], rest[1..]);
        forall k, i | 0 <= k < |r| && 0 <= i < |r[k]| ensures IsWordChar(r[k][i]) {
          if k == 0 {
            if i > 0 { assert r[0][i] == rest[0][i - 1]; }
          } else {
            assert r[k] == rest[k];
          }
        }
      } else if |s| > 1 && !IsWordChar(s[1]) {
      } else {
        ConcatCons("", rest);
        var r := RegexSplit(s);
        forall k, i | 0 <= k < |r| && 0 <= i < |r[k]| ensures IsWordChar(r[k][i]) {
          assert r[k] == rest[k - 1];
        }
      }
    }
  }

  lemma ConcatCons(p: string, ps: seq<string>)
    ensures Concat([p] + ps) == p + Concat(ps)
  {
    assert ([p] + ps)[1..] == ps;
  }

  /** The non-empty pieces, in order (`if not word: continue`). */
  function NonEmpty(ps: seq<string>): (r: seq<string>)
    ensures |r| <= |ps|
  {
    if ps == [] then []
    else NonEmpty(ps[..|ps| - 1]) + (if ps[|ps| - 1] == "" then [] else [ps[|ps| - 1]])
  }

  lemma {:induction false} NonEmptyPrefix(ps: seq<string>, i: nat)
    requires i <= |ps|
    ensures |NonEmpty(ps[..i])| <= |NonEmpty(ps)|
    ensures NonEmpty(ps[..i]) == NonEmpty(ps)[..|NonEmpty(ps[..i])|]
    decreases |ps| - i
  {
    if i < |ps| {
      NonEmptyPrefix(ps, i + 1);
      assert ps[..i + 1][..i] == ps[..i];
    } else {
      assert ps[..i] == ps;
    }
  }

  /** The lower-cased tokens that make up a name (`branch_name.append(word.lower())`). */
  function LowerAll(ts: seq<string>): (r: seq<string>)
    ensures |r| == |ts|
  {
    if ts == [] then [] else LowerAll(ts[..|ts| - 1]) + [Lower(ts[|ts| - 1])]
  }

  /** A token that counts toward the word budget: not a stop word (compared in its
      original case), not all digits, and longer than two characters. */
  predicate Significant(word: string)
  {
    word !in IgnoredWords && !AllDigits(word) && |word| > IgnoredWordLength
  }

  function Count(ts: seq<string>): (n: nat)
    ensures n <= |ts|
  {
    if ts == [] then 0 else Count(ts[..|ts| - 1]) + (if Significant(ts[|ts| - 1]) then 1 else 0)
  }

  /** The loop stops after the first `k` tokens: the budget is met and the name so far is new. */
  predicate Stops(toks: seq<string>, k: nat, words: nat, branches: seq<string>)
    requires k <= |toks|
  {
    Count(toks[..k]) >= words && Join("-", LowerAll(toks[..k])) !in branches
  }

  /** No prefix of length 1 to `n` stops the loop. */
  predicate NoStopUpTo(toks: seq<string>, n: nat, words: nat, branches: seq<string>)
    requires n <= |toks|
  {
    forall k :: 1 <= k <= n ==> !Stops(toks, k, words, branches)
  }

  /** The first `k` from `from` on at which the loop stops, or every token. */
  function StopFrom(toks: seq<string>, words: nat, branches: seq<string>, from: nat): (k: nat)
    requires 1 <= from <= |toks|
    ensures from <= k <= |toks|
    decreases |toks| - from
  {
    if Stops(toks, from, words, branches) || from == |toks| then from
    else StopFrom(toks, words, branches, from + 1)
  }

  /** The stop index is the least prefix length at which the loop stops; it is all of
      the tokens when no prefix stops it. */
  lemma {:induction false} StopFromIsLeast(toks: seq<string>, words: nat, branches: seq<string>, from: nat)
    requires 1 <= from <= |toks|
    ensures from <= StopFrom(toks, words, branches, from) <= |toks|
    ensures forall k :: from <= k < StopFrom(toks, words, branches, from) ==> !Stops(toks, k, words, branches)
    ensures StopFrom(toks, words, branches, from) < |toks| ==> Stops(toks, StopFrom(toks, words, branches, from), words, branches)
    decreases |toks| - from
  {
    if !(Stops(toks, from, words, branches) || from == |toks|) {
      StopFromIsLeast(toks, words, branches, from + 1);
    }
  }

  /** Conversely, a prefix length with no earlier stop, at which the loop stops or the
      tokens run out, is the stop index. */
  lemma {:induction false} StopFromUnique(toks: seq<string>, words: nat, branches: seq<string>, from: nat, m: nat)
    requires 1 <= from <= m <= |toks|
    requires forall k :: from <= k < m ==> !Stops(toks, k, words, branches)
    requires Stops(toks, m, words, branches) || m == |toks|
    ensures StopFrom(toks, words, branches, from) == m
    decreases m - from
  {
    if from < m {
      StopFromUnique(toks, words, branches, from + 1, m);
    }
  }

  /** `msg.replace('DRAFT: ', '', 1)` when the message starts with the prefix. */
  function StripDraft(msg: string): (r: string)
    ensures StartsWith(msg, DraftPrefix) ==> r == msg[|DraftPrefix|..]
    ensures !StartsWith(msg, DraftPrefix) ==> r == msg
  {
    if StartsWith(msg, DraftPrefix) then ReplaceFirst(msg, DraftPrefix, "") else msg
  }

  /** Whether the tail trim drops the last collected token: that token (lower-cased) is
      a stop word, or it has at most two characters while the final loop variable
      `word` is not all digits; and the name without it is not an existing branch. */
  predicate DropsLast(name: seq<string>, word: string, branches: seq<string>)
    requires |name| > 0
  {
    && (name[|name| - 1] in IgnoredWords || (!AllDigits(word) && |name[|name| - 1]| <= IgnoredWordLength))
    && Join("-", name[..|name| - 1]) !in branches
  }

  /** The tail trim: the name loses its last token exactly when `DropsLast` holds. */
  function Trim(name: seq<string>, word: string, branches: seq<string>): (r: seq<string>)
    requires |name| > 0
    ensures r == name || r == name[..|name| - 1]
    ensures r == name[..|r|]
    ensures |r| == |name| - 1 <==> DropsLast(name, word, branches)
  {
    var last := name[|name| - 1];
    if (last in IgnoredWords || (!AllDigits(word) && |last| <= IgnoredWordLength))
       && Join("-", name[..|name| - 1]) !in branches
    then name[..|name| - 1]
    else name
  }

  const NoWordsError := "No words found in commit msg to create branch name"
  const ExistsError := "Branch already exist"

  /** The branch name derived from a commit message, or the exception the source raises.
      A derived name is never an existing branch. */
  function BranchName(msg: string, words: nat, branches: seq<string>): (r: Result<string>)
    ensures r.Ok? ==> r.value !in branches
    ensures r.Err? ==> r.error == NoWordsError || r.error == ExistsError
  {
    NameFromPieces(RegexSplit(StripDraft(msg)), words, branches)
  }

  /** The tokens of a message: the non-empty pieces after the DRAFT strip. */
  function Tokens(msg: string): seq<string>
  {
    NonEmpty(RegexSplit(StripDraft(msg)))
  }

  /** The name built from the split pieces of the message. */
  function NameFromPieces(pieces: seq<string>, words: nat, branches: seq<string>): Result<string>
    requires |pieces| >= 1
  {
    var toks := NonEmpty(pieces);
    if toks == [] then Err(NoWordsError)
    else
      var m := StopFrom(toks, words, branches, 1);
      FinalName(Trim(LowerAll(toks[..m]), FinalWord(pieces, words, branches), branches), branches)
  }

  /** The value the loop variable `word` has after the loop: the token it broke on, or
      else the last piece of the split, which is empty when the message ends in a
      separator. */
  function FinalWord(pieces: seq<string>, words: nat, branches: seq<string>): (w: string)
    requires |pieces| >= 1 && NonEmpty(pieces) != []
    ensures var toks := NonEmpty(pieces); var m := StopFrom(toks, words, branches, 1);
      && (Stops(toks, m, words, branches) ==> w == toks[m - 1])
      && (!Stops(toks, m, words, branches) ==> w == pieces[|pieces| - 1] && m == |toks|)
  {
    var toks := NonEmpty(pieces);
    var m := StopFrom(toks, words, branches, 1);
    StopFromIsLeast(toks, words, branches, 1);
    if Stops(toks, m, words, branches) then toks[m - 1] else pieces[|pieces| - 1]
  }

  /** The joined name, refused when it is an existing branch. */
  function FinalName(name: seq<string>, branches: seq<string>): (r: Result<string>)
    ensures r.Err? ==> r.error == ExistsError
  {
    var joined := Join("-", name);
    if joined in branches then Err(ExistsError) else Ok(joined)
  }

  lemma NonEmptyStep(ps: seq<string>, i: nat)
    requires i < |ps|
    ensures NonEmpty(ps[..i + 1]) == NonEmpty(ps[..i]) + (if ps[i] == "" then [] else [ps[i]])
  {
    assert ps[..i + 1][..i] == ps[..i];
  }

  lemma {:induction false} NonEmptyNil(ps: seq<string>)
    ensures NonEmpty(ps) == [] <==> Concat(ps) == ""
  {
    if ps != [] {
      var init := ps[..|ps| - 1];
      NonEmptyNil(init);
      ConcatSnoc(init, ps[|ps| - 1]);
      assert ps == init + [ps[|ps| - 1]];
    }
  }

  lemma {:induction false} ConcatSnoc(ps: seq<string>, p: string)
    ensures Concat(ps + [p]) == Concat(ps) + p
  {
    if ps != [] {
      ConcatSnoc(ps[1..], p);
      assert (ps + [p])[1..] == ps[1..] + [p];
    } else {
      assert Concat([p]) == p + Concat([]);
    }
  }

  /** There are no tokens, and the "no words" exception is raised, exactly when the
      message (after the DRAFT strip) has no letter or digit. */
  lemma NoWordsIff(msg: string, words: nat, branches: seq<string>)
    ensures BranchName(msg, words, branches) == Err(NoWordsError) <==> WordChars(StripDraft(msg)) == ""
  {
    var pieces := RegexSplit(StripDraft(msg));
    RegexSplitKeepsWordChars(StripDraft(msg));
    NonEmptyNil(pieces);
    assert NoWordsError != ExistsError;
  }

  /** How far the name extends: with `m` the stop index, every shorter prefix that met
      the word budget was an existing branch, and the stop index meets the budget
      unless the tokens ran out. */
  lemma StopIndexMeaning(msg: string, words: nat, branches: seq<string>)
    requires Tokens(msg) != []
    ensures var toks := Tokens(msg);
      var m := StopFrom(toks, words, branches, 1);
      && 1 <= m <= |toks|
      && (forall k :: 1 <= k < m && Count(toks[..k]) >= words ==> Join("-", LowerAll(toks[..k])) in branches)
      && (m < |toks| ==> Count(toks[..m]) >= words)
  {
    var toks := Tokens(msg);
    StopFromIsLeast(toks, words, branches, 1);
    var m := StopFrom(toks, words, branches, 1);
    forall k | 1 <= k < m && Count(toks[..k]) >= words
      ensures Join("-", LowerAll(toks[..k])) in branches
    {
      assert !Stops(toks, k, words, branches);
    }
  }

  /** The result is the dash-joined lower-cased first `m` tokens, where `m` is the stop
      index, without the last of them when `DropsLast` holds; it is the "exists" error
      exactly when that name is an existing branch. */
  lemma BranchNameValue(msg: string, words: nat, branches: seq<string>)
    requires Tokens(msg) != []
    ensures var toks := Tokens(msg);
      var m := StopFrom(toks, words, branches, 1);
      BranchName(msg, words, branches).Ok? ==>
        BranchName(msg, words, branches).value in {Join("-", LowerAll(toks[..m])), Join("-", LowerAll(toks[..m - 1]))}
    ensures var toks := Tokens(msg);
      var m := StopFrom(toks, words, branches, 1);
      var name := LowerAll(toks[..m]);
      var kept := if DropsLast(name, FinalWord(RegexSplit(StripDraft(msg)), words, branches), branches)
                  then LowerAll(toks[..m - 1]) else name;
      BranchName(msg, words, branches) == if Join("-", kept) in branches then Err(ExistsError) else Ok(Join("-", kept))
  {
    PiecesValue(RegexSplit(StripDraft(msg)), words, branches);
  }

  lemma PiecesValue(pieces: seq<string>, words: nat, branches: seq<string>)
    requires |pieces| >= 1 && NonEmpty(pieces) != []
    ensures var toks := NonEmpty(pieces);
      var m := StopFrom(toks, words, branches, 1);
      NameFromPieces(pieces, words, branches).Ok? ==>
        NameFromPieces(pieces, words, branches).value in {Join("-", LowerAll(toks[..m])), Join("-", LowerAll(toks[..m - 1]))}
    ensures var toks := NonEmpty(pieces);
      var m := StopFrom(toks, words, branches, 1);
      var name := LowerAll(toks[..m]);
      var kept := if DropsLast(name, FinalWord(pieces, words, branches), branches) then LowerAll(toks[..m - 1]) else name;
      NameFromPieces(pieces, words, branches) == if Join("-", kept) in branches then Err(ExistsError) else Ok(Join("-", kept))
  {
    var toks := NonEmpty(pieces);
    StopFromIsLeast(toks, words, branches, 1);
    var m := StopFrom(toks, words, branches, 1);
    var word := FinalWord(pieces, words, branches);
    var name := LowerAll(toks[..m]);
    var trimmed := Trim(name, word, branches);
    assert NameFromPieces(pieces, words, branches) == FinalName(trimmed, branches);
    assert name[..m - 1] == LowerAll(toks[..m - 1]) by {
      LowerAllPrefix(toks[..m], m - 1);
      assert toks[..m][..m - 1] == toks[..m - 1];
    }
  }

  lemma {:induction false} LowerAllPrefix(ts: seq<string>, n: nat)
    requires n <= |ts|
    ensures LowerAll(ts)[..n] == LowerAll(ts[..n])
    decreases |ts| - n
  {
    if n < |ts| {
      LowerAllPrefix(ts[..|ts| - 1], n);
      assert ts[..|ts| - 1][..n] == ts[..n];
    } else {
      assert ts[..n] == ts;
    }
  }

  /** One iteration of the token loop: the pieces seen so far grow by the next piece
      when it is non-empty, and the name, the count and the stop test follow. */
  lemma ScanStep(pieces: seq<string>, i: nat, seen: seq<string>, words: nat, branches: seq<string>)
    requires i < |pieces| && seen == NonEmpty(pieces[..i])
    ensures pieces[i] == "" ==> NonEmpty(pieces[..i + 1]) == seen
    ensures pieces[i] != "" ==>
      var next := seen + [pieces[i]];
      && NonEmpty(pieces[..i + 1]) == next
      && |next| <= |NonEmpty(pieces)| && next == NonEmpty(pieces)[..|next|]
      && LowerAll(next) == LowerAll(seen) + [Lower(pieces[i])]
      && Count(next) == Count(seen) + (if Significant(pieces[i]) then 1 else 0)
      && (Stops(NonEmpty(pieces), |next|, words, branches) <==>
            Count(next) >= words && Join("-", LowerAll(next)) !in branches)
  {
    NonEmptyStep(pieces, i);
    NonEmptyPrefix(pieces, i + 1);
    if pieces[i] != "" {
      var next := seen + [pieces[i]];
      assert next[..|next| - 1] == seen;
      assert NonEmpty(pieces)[..|next|] == next;
    }
  }

  lemma NoStopExtend(toks: seq<string>, n: nat, words: nat, branches: seq<string>)
    requires n < |toks| && NoStopUpTo(toks, n, words, branches) && !Stops(toks, n + 1, words, branches)
    ensures NoStopUpTo(toks, n + 1, words, branches)
  {
  }

  /** What the loop has established when it ends, by `break` or by running out of
      pieces, determines the result the function describes. */
  lemma LoopExit(words: nat, branches: seq<string>, pieces: seq<string>, seen: seq<string>, word: string, broke: bool)
    requires |pieces| >= 1
    requires |seen| <= |NonEmpty(pieces)| && seen == NonEmpty(pieces)[..|seen|]
    requires forall k :: 1 <= k < |seen| ==> !Stops(NonEmpty(pieces), k, words, branches)
    requires broke ==> |seen| > 0 && Stops(NonEmpty(pieces), |seen|, words, branches) && word == seen[|seen| - 1]
    requires !broke ==> seen == NonEmpty(pieces) && word == pieces[|pieces| - 1]
    requires !broke && |seen| > 0 ==> !Stops(NonEmpty(pieces), |seen|, words, branches)
    ensures seen == [] ==> NameFromPieces(pieces, words, branches) == Err(NoWordsError)
    ensures seen != [] ==> NameFromPieces(pieces, words, branches) == FinalName(Trim(LowerAll(seen), word, branches), branches)
  {
    var toks := NonEmpty(pieces);
    if seen != [] {
      StopFromUnique(toks, words, branches, 1, |seen|);
      assert toks[..|seen|] == seen;
    } else if broke {
      assert false;
    }
  }

  /** The loop of `_branch_for_msg`/`branch_for_msg` over the split pieces, with its
      early `break`: the lower-cased tokens collected, the final loop variable, and
      whether the loop broke. */
  method ScanPieces(pieces: seq<string>, words: nat, branches: seq<string>)
    returns (branchName: seq<string>, word: string, broke: bool, ghost seen: seq<string>)
    requires |pieces| >= 1
    ensures branchName == LowerAll(seen)
    ensures |seen| <= |NonEmpty(pieces)| && seen == NonEmpty(pieces)[..|seen|]
    ensures forall k :: 1 <= k < |seen| ==> !Stops(NonEmpty(pieces), k, words, branches)
    ensures broke ==> |seen| > 0 && Stops(NonEmpty(pieces), |seen|, words, branches) && word == seen[|seen| - 1]
    ensures !broke ==> seen == NonEmpty(pieces) && word == pieces[|pieces| - 1]
    ensures !broke && |seen| > 0 ==> !Stops(NonEmpty(pieces), |seen|, words, branches)
  {
    ghost var toks := NonEmpty(pieces);
    seen := [];
    branchName := [];
    var wordCount := 0;
    word := "";
    broke := false;
    var i := 0;
    while i < |pieces|
      invariant 0 <= i <= |pieces|
      invariant seen == NonEmpty(pieces[..i])
      invariant |seen| <= |toks| && seen == toks[..|seen|]
      invariant branchName == LowerAll(seen)
      invariant wordCount == Count(seen)
      invariant NoStopUpTo(toks, |seen|, words, branches)
      invariant i > 0 ==> word == pieces[i - 1]
    {
      ScanStep(pieces, i, seen, words, branches);
      word := pieces[i];
      i := i + 1;
      if word == "" {
        continue;
      }
      seen := seen + [word];
      branchName := branchName + [Lower(word)];
      if Significant(word) {
        wordCount := wordCount + 1;
      }
      if wordCount >= words && Join("-", branchName) !in branches {
        broke := true;
        break;
      }
      NoStopExtend(toks, |seen| - 1, words, branches);
    }
    if !broke {
      assert pieces[..i] == pieces;
    }
  }

  /** `_branch_for_msg`/`branch_for_msg`: the DRAFT strip, the token loop, the tail
      trim and the two exceptions. */
  method BranchForMsg(msg: string, words: nat, branches: seq<string>) returns (r: Result<string>)
    ensures r == BranchName(msg, words, branches)
  {
    var text := msg;
    if StartsWith(text, DraftPrefix) {
      text := ReplaceFirst(text, DraftPrefix, "");
    }
    assert text == StripDraft(msg);
    var pieces := RegexSplit(text);
    var branchName, word, broke, seen := ScanPieces(pieces, words, branches);
    LoopExit(words, branches, pieces, seen, word, broke);
    if branchName == [] {
      return Err(NoWordsError);
    }
    var trimmed := branchName;
    var last := branchName[|branchName| - 1];
    if (last in IgnoredWords || (!AllDigits(word) && |last| <= IgnoredWordLength))
       && Join("-", branchName[..|branchName| - 1]) !in branches {
      trimmed := branchName[..|branchName| - 1];
    }
    assert trimmed == Trim(branchName, word, branches);
    var name := Join("-", trimmed);
    if name in branches {
      return Err(ExistsError);
    }
    return Ok(name);
  }

  // ---------------------------------------------------------------------------
  // Splitting a message written as tokens and separators

  /** A run of word characters. */
  predicate IsToken(w: string) { w != [] && forall i :: 0 <= i < |w| ==> IsWordChar(w[i]) }

  /** A run of separator characters. */
  predicate IsSeparator(w: string) { w != [] && forall i :: 0 <= i < |w| ==> !IsWordChar(w[i]) }

  /** The tokens with the separators between them. */
  function Interleave(ws: seq<string>, seps: seq<string>): string
    requires |ws| == |seps| + 1
  {
    if seps == [] then ws[0] else ws[0] + seps[0] + Interleave(ws[1..], seps[1..])
  }

  lemma {:induction false} SplitWord(w: string, s: string)
    requires forall i :: 0 <= i < |w| ==> IsWordChar(w[i])
    ensures RegexSplit(w + s) == [w + RegexSplit(s)[0]] + RegexSplit(s)[1..]
    decreases |w|
  {
    var r := RegexSplit(s);
    if w != [] {
      SplitWord(w[1..], s);
      assert (w + s)[1..] == w[1..] + s;
      var rest := RegexSplit(w[1..] + s);
      assert rest[0] == w[1..] + r[0] && rest[1..] == r[1..];
      assert [w[0]] + (w[1..] + r[0]) == w + r[0];
    } else {
      assert w + s == s && w + r[0] == r[0];
      assert [r[0]] + r[1..] == r;
    }
  }

  lemma {:induction false} SplitSep(sep: string, s: string)
    requires IsSeparator(sep) && (s == [] || IsWordChar(s[0]))
    ensures RegexSplit(sep + s) == [""] + RegexSplit(s)
    decreases |sep|
  {
    assert (sep + s)[1..] == sep[1..] + s;
    if |sep| > 1 {
      SplitSep(sep[1..], s);
    }
  }

  /** Splitting tokens separated by separator runs gives back the tokens. */
  lemma {:induction false} SplitTokens(ws: seq<string>, seps: seq<string>)
    requires |ws| == |seps| + 1
    requires forall i :: 0 <= i < |ws| ==> IsToken(ws[i])
    requires forall i :: 0 <= i < |seps| ==> IsSeparator(seps[i])
    ensures RegexSplit(Interleave(ws, seps)) == ws
    decreases |seps|
  {
    if seps == [] {
      SplitWord(ws[0], "");
      assert ws[0] + "" == ws[0];
    } else {
      var tail := Interleave(ws[1..], seps[1..]);
      SplitTokens(ws[1..], seps[1..]);
      assert tail[0] == ws[1][0] by { InterleaveHead(ws[1..], seps[1..]); }
      SplitSep(seps[0], tail);
      var rs := RegexSplit(seps[0] + tail);
      assert rs == [""] + ws[1..];
      SplitWord(ws[0], seps[0] + tail);
      assert Interleave(ws, seps) == ws[0] + (seps[0] + tail);
      assert rs[0] == "" && rs[1..] == ws[1..];
      assert ws[0] + rs[0] == ws[0];
      assert [ws[0]] + ws[1..] == ws;
    }
  }

  lemma InterleaveHead(ws: seq<string>, seps: seq<string>)
    requires |ws| == |seps| + 1 && ws[0] != []
    ensures |Interleave(ws, seps)| > 0 && Interleave(ws, seps)[0] == ws[0][0]
  {
  }

  lemma {:induction false} NonEmptyTokens(ws: seq<string>)
    requires forall i :: 0 <= i < |ws| ==> ws[i] != ""
    ensures NonEmpty(ws) == ws
  {
    if ws != [] {
      NonEmptyTokens(ws[..|ws| - 1]);
      assert ws[..|ws| - 1] + [ws[|ws| - 1]] == ws;
    }
  }

  /** A message of tokens and separators that is not a draft is named from its tokens. */
  lemma NameOfTokens(ws: seq<string>, seps: seq<string>, words: nat, branches: seq<string>)
    requires |ws| == |seps| + 1
    requires forall i :: 0 <= i < |ws| ==> IsToken(ws[i])
    requires forall i :: 0 <= i < |seps| ==> IsSeparator(seps[i])
    requires !StartsWith(Interleave(ws, seps), DraftPrefix)
    ensures BranchName(Interleave(ws, seps), words, branches) == NameFromPieces(ws, words, branches)
    ensures NonEmpty(ws) == ws
  {
    SplitTokens(ws, seps);
    NonEmptyTokens(ws);
  }

  lemma {:induction false} LowerAllAt(ts: seq<string>)
    ensures forall i :: 0 <= i < |ts| ==> LowerAll(ts)[i] == Lower(ts[i])
  {
    if ts != [] {
      LowerAllAt(ts[..|ts| - 1]);
    }
  }

  lemma CountStep(ts: seq<string>, k: nat)
    requires k < |ts|
    ensures Count(ts[..k + 1]) == Count(ts[..k]) + (if Significant(ts[k]) then 1 else 0)
  {
    assert ts[..k + 1][..k] == ts[..k];
  }

  /** The name from the stop index, the final loop variable and the collected tokens. */
  lemma NameFromFacts(toks: seq<string>, words: nat, branches: seq<string>, m: nat, word: string, name: seq<string>)
    requires NonEmpty(toks) == toks && toks != []
    requires StopFrom(toks, words, branches, 1) == m && FinalWord(toks, words, branches) == word
    requires LowerAll(toks[..m]) == name
    ensures |name| > 0
    ensures NameFromPieces(toks, words, branches) == FinalName(Trim(name, word, branches), branches)
  {
  }

  // ---------------------------------------------------------------------------
  // The names the unit tests expect (test/test_commit.py)

  /** A short trailing word is trimmed: "Fix test to" gives "fix-test". */
  lemma ShortTailTrimmed()
    ensures BranchName("Fix test to", 3, []) == Ok("fix-test")
  {
    var ws := ["Fix", "test", "to"];
    ShortTailTrimmedSplit(ws);
    ShortTailTrimmedPieces(ws);
  }

  predicate FixTestTokens(ws: seq<string>)
  {
    |ws| == 3 && ws[0] == "Fix" && ws[1] == "test" && ws[2] == "to"
  }

  lemma ShortTailTrimmedSplit(ws: seq<string>)
    requires FixTestTokens(ws)
    ensures BranchName("Fix test to", 3, []) == NameFromPieces(ws, 3, [])
  {
    assert ws == ["Fix", "test", "to"];
    assert IsToken("Fix") && IsToken("test") && IsToken("to") && IsSeparator(" ");
    assert Interleave(["Fix", "test", "to"], [" ", " "]) == "Fix test to";
    assert "Fix test to"[..7][0] == 'F';
    NameOfTokens(ws, [" ", " "], 3, []);
  }

  lemma ShortTailTrimmedPieces(ws: seq<string>)
    requires FixTestTokens(ws)
    ensures NameFromPieces(ws, 3, []) == Ok("fix-test")
  {
    NonEmptyTokens(ws);
    ShortTailTrimmedStop(ws);
    ShortTailTrimmedLower(ws);
    assert ws[..3] == ws;
    NameFromFacts(ws, 3, [], 3, "to", ["fix", "test", "to"]);
    ShortTailTrimmedJoin();
  }

  lemma ShortTailTrimmedJoin()
    ensures FinalName(Trim(["fix", "test", "to"], "to", []), []) == Ok("fix-test")
  {
    assert !IsDigit("to"[0]) && ["fix", "test", "to"][..2] == ["fix", "test"];
    assert Trim(["fix", "test", "to"], "to", []) == ["fix", "test"];
    assert Join("-", ["test"]) == "test";
    assert Join("-", ["fix", "test"]) == "fix-test";
  }

  lemma ShortTailTrimmedStop(ws: seq<string>)
    requires FixTestTokens(ws)
    ensures StopFrom(ws, 3, [], 1) == 3
    ensures FinalWord(ws, 3, []) == "to"
  {
    assert !IsDigit("Fix"[0]) && !IsDigit("test"[0]) && |"to"| == 2;
    assert Significant(ws[0]) && Significant(ws[1]) && !Significant(ws[2]);
    assert ws[..0] == [];
    CountStep(ws, 0);
    CountStep(ws, 1);
    CountStep(ws, 2);
    assert ws[..3] == ws;
    assert forall k :: 1 <= k <= 3 ==> !Stops(ws, k, 3, []);
    StopFromUnique(ws, 3, [], 1, 3);
    NonEmptyTokens(ws);
  }

  lemma ShortTailTrimmedLower(ws: seq<string>)
    requires FixTestTokens(ws)
    ensures LowerAll(ws) == ["fix", "test", "to"]
  {
    LowerAllAt(ws);
    LowerFixTest();
    var r := LowerAll(ws);
    var e := ["fix", "test", "to"];
    forall i | 0 <= i < 3 ensures r[i] == e[i] {
    }
  }

  lemma LowerFixTest()
    ensures Lower("Fix") == "fix" && Lower("test") == "test" && Lower("to") == "to"
  {
    LowerPointwise("Fix", "fix");
    LowerPointwise("test", "test");
    LowerPointwise("to", "to");
  }

  /** A short trailing number is kept: "Publish version 0.4.2" gives
      "publish-version-0-4-2". */
  lemma DigitTailKept()
    ensures BranchName("Publish version 0.4.2", 3, []) == Ok("publish-version-0-4-2")
  {
    var ws := ["Publish", "version", "0", "4", "2"];
    DigitTailKeptSplit(ws);
    DigitTailKeptPieces(ws);
  }

  predicate PublishTokens(ws: seq<string>)
  {
    |ws| == 5 && ws[0] == "Publish" && ws[1] == "version" && ws[2] == "0" && ws[3] == "4" && ws[4] == "2"
  }

  lemma DigitTailKeptSplit(ws: seq<string>)
    requires PublishTokens(ws)
    ensures BranchName("Publish version 0.4.2", 3, []) == NameFromPieces(ws, 3, [])
  {
    var seps := [" ", " ", ".", "."];
    assert ws == ["Publish", "version", "0", "4", "2"];
    PublishTokensAreTokens(ws);
    assert IsSeparator(" ") && IsSeparator(".");
    assert Interleave(["Publish", "version", "0", "4", "2"], seps) == "Publish version 0.4.2";
    assert "Publish version 0.4.2"[..7][0] == 'P';
    NameOfTokens(ws, seps, 3, []);
  }

  lemma PublishTokensAreTokens(ws: seq<string>)
    requires PublishTokens(ws)
    ensures forall i :: 0 <= i < |ws| ==> IsToken(ws[i])
  {
    assert IsToken("Publish") && IsToken("version") && IsToken("0") && IsToken("4") && IsToken("2");
  }

  lemma DigitTailKeptPieces(ws: seq<string>)
    requires PublishTokens(ws)
    ensures NameFromPieces(ws, 3, []) == Ok("publish-version-0-4-2")
  {
    NonEmptyTokens(ws);
    DigitTailKeptStop(ws);
    DigitTailKeptFinal(ws);
    DigitTailKeptLower(ws);
    assert ws[..5] == ws;
    NameFromFacts(ws, 3, [], 5, "2", ["publish", "version", "0", "4", "2"]);
    DigitTailKeptJoin();
  }

  lemma DigitTailKeptCounts(ws: seq<string>)
    requires PublishTokens(ws)
    ensures Count(ws[..1]) == 1 && Count(ws[..2]) == 2 && Count(ws[..3]) == 2 && Count(ws[..4]) == 2 && Count(ws[..5]) == 2
  {
    assert !IsDigit("Publish"[0]) && !IsDigit("version"[0]);
    assert Significant(ws[0]) && Significant(ws[1]);
    assert !Significant(ws[2]) && !Significant(ws[3]) && !Significant(ws[4]);
    assert ws[..0] == [];
    CountStep(ws, 0);
    CountStep(ws, 1);
    CountStep(ws, 2);
    CountStep(ws, 3);
    CountStep(ws, 4);
  }

  lemma DigitTailKeptStop(ws: seq<string>)
    requires PublishTokens(ws)
    ensures StopFrom(ws, 3, [], 1) == 5
    ensures !Stops(ws, 5, 3, [])
  {
    DigitTailKeptCounts(ws);
    assert forall k :: 1 <= k <= 5 ==> !Stops(ws, k, 3, []);
    StopFromUnique(ws, 3, [], 1, 5);
  }

  lemma DigitTailKeptFinal(ws: seq<string>)
    requires PublishTokens(ws)
    ensures FinalWord(ws, 3, []) == "2"
  {
    NonEmptyTokens(ws);
    DigitTailKeptStop(ws);
  }

  /** Lower-casing a string without capitals leaves it as it is. */
  lemma {:induction false} LowerKeeps(w: string)
    requires forall i :: 0 <= i < |w| ==> !('A' <= w[i] <= 'Z')
    ensures Lower(w) == w
  {
    if w != [] {
      LowerKeeps(w[1..]);
    }
  }

  lemma DigitTailKeptLower(ws: seq<string>)
    requires PublishTokens(ws)
    ensures LowerAll(ws) == ["publish", "version", "0", "4", "2"]
  {
    LowerAllAt(ws);
    LowerPublish();
    LowerVersion();
    LowerNumbers();
    var r := LowerAll(ws);
    var e := ["publish", "version", "0", "4", "2"];
    forall i | 0 <= i < 5 ensures r[i] == e[i] {
    }
  }

  lemma LowerPublish()
    ensures Lower("Publish") == "publish"
  {
    LowerPointwise("Publish", "publish");
  }

  /** Lower-casing is character by character. */
  lemma {:induction false} LowerPointwise(s: string, t: string)
    requires |s| == |t| && forall i :: 0 <= i < |s| ==> LowerChar(s[i]) == t[i]
    ensures Lower(s) == t
  {
    if s != [] {
      LowerPointwise(s[1..], t[1..]);
    }
  }

  lemma LowerVersion()
    ensures Lower("version") == "version"
  {
    LowerPointwise("version", "version");
  }

  lemma LowerNumbers()
    ensures Lower("0") == "0" && Lower("4") == "4" && Lower("2") == "2"
  {
  }

  lemma DigitTailKeptJoin()
    ensures FinalName(Trim(["publish", "version", "0", "4", "2"], "2", []), []) == Ok("publish-version-0-4-2")
  {
    var name := ["publish", "version", "0", "4", "2"];
    assert AllDigits("2") && "2" !in IgnoredWords;
    assert Trim(name, "2", []) == name;
    assert Join("-", ["2"]) == "2";
    assert Join("-", ["4", "2"]) == "4-2";
    assert Join("-", ["0", "4", "2"]) == "0-4-2";
    assert Join("-", ["version", "0", "4", "2"]) == "version-0-4-2";
    assert Join("-", name) == "publish-version-0-4-2";
  }
}
